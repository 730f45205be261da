/**
 The loops of match() and mmatch() (ircd/match.c): both go back to their last star only, and yet miss
 nothing. An escaped wildcard is one token here, as it is one step there.
 */
module MaskLoops {
  import opened CharAttr
  import opened Wildcards

  // ----- match

  /** The mask matches the text from some place behind k on. */
  ghost predicate Later(p: seq<Token>, s: string, k: nat) {
    exists j :: k < j <= |s| && Glob(p, s[j..])
  }

  predicate NoStar(p: seq<Token>) {
    forall i :: 0 <= i < |p| ==> !p[i].Star?
  }

  /** There is a star before the first character of the mask. */
  predicate StarFirst(p: seq<Token>) {
    p != [] && (p[0].Star? || (p[0].Any? && StarFirst(p[1..])))
  }

  lemma {:induction false} StarStar(q: seq<Token>, x: string)
    ensures Glob([Star] + ([Star] + q), x) <==> Glob([Star] + q, x)
  {
    assert ([Star] + ([Star] + q))[1..] == [Star] + q;
    if x != "" {
      StarStar(q, x[1..]);
    }
  }

  lemma {:induction false} StarAny(q: seq<Token>, x: string)
    ensures Glob([Star] + ([Any] + q), x) <==> x != "" && Glob([Star] + q, x[1..])
  {
    assert ([Star] + ([Any] + q))[1..] == [Any] + q && ([Any] + q)[1..] == q && ([Star] + q)[1..] == q;
    if x != "" {
      StarAny(q, x[1..]);
    }
  }

  lemma {:induction false} StarTakes(q: seq<Token>, s: string, n: nat)
    requires n <= |s|
    ensures Glob([Star] + q, s[n..]) <==> Glob(q, s[n..]) || Later(q, s, n)
    decreases |s| - n
  {
    assert ([Star] + q)[1..] == q;
    if n < |s| {
      StarTakes(q, s, n + 1);
      assert s[n..][1..] == s[n + 1..];
      LaterStep(q, s, n);
    }
  }

  lemma LaterStep(q: seq<Token>, s: string, n: nat)
    requires n < |s|
    ensures Later(q, s, n) <==> Glob(q, s[n + 1..]) || Later(q, s, n + 1)
  {
  }

  /** A part of the mask without stars takes as many characters. */
  lemma {:induction false} PartTakes(seg: seq<Token>, q: seq<Token>, x: string)
    requires NoStar(seg) && Glob(seg + q, x)
    ensures |seg| <= |x| && Glob(q, x[|seg|..])
  {
    if seg == [] {
      assert seg + q == q && x[0..] == x;
    } else {
      assert (seg + q)[0] == seg[0] && (seg + q)[1..] == seg[1..] + q;
      PartTakes(seg[1..], q, x[1..]);
      assert x[1..][|seg| - 1..] == x[|seg|..];
    }
  }

  /** With a star first, what matches the end of a text matches all of it. */
  lemma {:induction false} StarFirstEarlier(q: seq<Token>, x: string, k: nat)
    requires StarFirst(q) && k <= |x| && Glob(q, x[k..])
    ensures Glob(q, x)
    decreases |q| + k
  {
    if k == 0 {
      assert x[0..] == x;
    } else if q[0].Star? {
      assert x[1..][k - 1..] == x[k..];
      StarFirstEarlier(q, x[1..], k - 1);
    } else {
      assert x[k..][1..] == x[1..][k..];
      StarFirstEarlier(q[1..], x[1..], k);
    }
  }

  /** The token at m, and what is behind it. */
  lemma Behind(p: seq<Token>, m: nat)
    requires m < |p|
    ensures p[m..] == [p[m]] + p[m + 1..] && p[m..][1..] == p[m + 1..]
  {
  }

  /** All but the wildcards before the next character: a star if there was one. */
  function RunRest(p: seq<Token>, m: nat, star: bool): seq<Token>
    requires m <= |p|
  {
    if star then [Star] + p[m..] else p[m..]
  }

  /** One wildcard more of a run. */
  lemma RunStep(p: seq<Token>, m: nat, star: bool, x: string)
    requires m < |p| && !p[m].Lit?
    ensures p[m].Star? ==> (Glob(RunRest(p, m, star), x) <==> Glob(RunRest(p, m + 1, true), x))
    ensures p[m].Any? ==> (Glob(RunRest(p, m, star), x) <==> x != "" && Glob(RunRest(p, m + 1, star), x[1..]))
  {
    Behind(p, m);
    StarStar(p[m + 1..], x);
    StarAny(p[m + 1..], x);
  }

  /** The run of wildcards at m0: at its end all characters for its '?' are taken; short if there are too few. */
  method SkipRun(p: seq<Token>, s: string, m0: nat, n0: nat) returns (m: nat, n: nat, star: bool, short: bool)
    requires m0 < |p| && n0 <= |s| && !p[m0].Lit?
    ensures m0 <= m <= |p| && n0 <= n <= |s|
    ensures short ==> !Glob(p[m0..], s[n0..])
    ensures !short ==> m0 < m && (m == |p| || p[m].Lit?)
    ensures !short ==> (Glob(p[m0..], s[n0..]) <==> Glob(RunRest(p, m, star), s[n..]))
    ensures if star then StarFirst(p[m0..]) else n - n0 == m - m0 && NoStar(p[m0..m])
  {
    hide Glob, StarFirst, RunRest;
    RunStart(p, m0);
    m, n, star, short := m0, n0, false, false;
    while m < |p| && !p[m].Lit?
      invariant m0 <= m <= |p| && n0 <= n <= |s|
      invariant Glob(p[m0..], s[n0..]) <==> Glob(RunRest(p, m, star), s[n..])
      invariant if star then StarFirst(p[m0..])
                else n - n0 == m - m0 && forall i :: m0 <= i < m ==> p[i].Any?
      decreases |p| - m
    {
      RunStep(p, m, star, s[n..]);
      if p[m].Star? {
        if !star {
          FirstStar(p, m0, m);
        }
        star := true;
      } else {
        if n == |s| {
          short := true;
          return;
        }
        NextChar(s, n);
        n := n + 1;
      }
      m := m + 1;
    }
  }

  lemma RunStart(p: seq<Token>, m: nat)
    requires m <= |p|
    ensures RunRest(p, m, false) == p[m..]
  {
  }

  lemma NextChar(s: string, n: nat)
    requires n < |s|
    ensures s[n..] != "" && s[n..][1..] == s[n + 1..]
  {
  }

  lemma {:induction false} FirstStar(p: seq<Token>, m0: nat, m: nat)
    requires m0 <= m < |p| && p[m].Star? && forall i :: m0 <= i < m ==> p[i].Any?
    ensures StarFirst(p[m0..])
    decreases m - m0
  {
    if m0 < m {
      FirstStar(p, m0 + 1, m);
      Behind(p, m0);
    }
  }

  /** The last star is in front of mTmp; the text behind it was tried from nTmp on, now from st. */
  ghost predicate Trying(p: seq<Token>, s: string, m: nat, n: nat, mTmp: nat, nTmp: nat, st: nat) {
    && 0 < mTmp <= m <= |p| && mTmp < |p| && p[mTmp].Lit? && nTmp <= st <= n <= |s| && n - st == m - mTmp
    && NoStar(p[mTmp..m])
    && (forall j :: nTmp < j < st ==> !Glob(p[mTmp..], s[j..]))
    && (Glob(p, s) <==> Glob(p[m..], s[n..]) || Later(p[mTmp..], s, nTmp))
  }

  /** Every later try comes to the token at m, and not earlier than at n. */
  lemma LaterReaches(p: seq<Token>, s: string, m: nat, n: nat, mTmp: nat, nTmp: nat, st: nat)
    requires Trying(p, s, m, n, mTmp, nTmp, st) && Later(p[mTmp..], s, nTmp)
    ensures Glob(p[m..], s[n..]) || Later(p[m..], s, n)
  {
    hide Glob;
    var j :| nTmp < j <= |s| && Glob(p[mTmp..], s[j..]);
    assert j >= st;
    assert p[mTmp..] == p[mTmp..m] + p[m..];
    PartTakes(p[mTmp..m], p[m..], s[j..]);
    assert s[j..][m - mTmp..] == s[j + (m - mTmp)..];
  }

  /** A new star takes in all that later tries from the last one could find. */
  lemma NewStar(p: seq<Token>, s: string, m: nat, n: nat, mTmp: nat, nTmp: nat, st: nat)
    requires Trying(p, s, m, n, mTmp, nTmp, st) && StarFirst(p[m..])
    ensures Glob(p, s) <==> Glob(p[m..], s[n..])
  {
    hide Glob, StarFirst;
    if Later(p[mTmp..], s, nTmp) {
      LaterReaches(p, s, m, n, mTmp, nTmp, st);
      if !Glob(p[m..], s[n..]) {
        var j :| n < j <= |s| && Glob(p[m..], s[j..]);
        assert s[n..][j - n..] == s[j..];
        StarFirstEarlier(p[m..], s[n..], j - n);
      }
    }
  }

  /** At the end of the text a character is too much for every later try. */
  lemma TextEnds(p: seq<Token>, s: string, m: nat, mTmp: nat, nTmp: nat, st: nat)
    requires Trying(p, s, m, |s|, mTmp, nTmp, st) && m < |p| && p[m].Lit?
    ensures !Glob(p, s)
  {
    if Later(p[mTmp..], s, nTmp) {
      LaterReaches(p, s, m, |s|, mTmp, nTmp, st);
    }
  }

  /** What is known in front of every step: before the first star there is nothing else to try. */
  ghost predicate Matching(p: seq<Token>, s: string, m: nat, n: nat, mTmp: nat, nTmp: nat, st: nat) {
    && m <= |p| && n <= |s| && nTmp <= |s|
    && if mTmp == 0 then nTmp == 0 && (Glob(p, s) <==> Glob(p[m..], s[n..]))
       else Trying(p, s, m, n, mTmp, nTmp, st) && nTmp < |s|
  }

  lemma MatchStart(p: seq<Token>, s: string)
    ensures Matching(p, s, 0, 0, 0, 0, 0)
  {
    assert p[0..] == p && s[0..] == s;
  }

  /** The next character is the one in the mask. */
  lemma Advance(p: seq<Token>, s: string, m: nat, n: nat, mTmp: nat, nTmp: nat, st: nat)
    requires Matching(p, s, m, n, mTmp, nTmp, st) && m < |p| && n < |s| && p[m].Lit? && ToLower(p[m].c) == ToLower(s[n])
    ensures Matching(p, s, m + 1, n + 1, mTmp, nTmp, st)
  {
    Behind(p, m);
    assert s[n..][1..] == s[n + 1..];
    if mTmp > 0 {
      assert p[mTmp..m + 1] == p[mTmp..m] + [p[m]];
    }
  }

  /** A run of '?' has taken its characters. */
  lemma Onward(p: seq<Token>, s: string, m: nat, n: nat, m': nat, n': nat, mTmp: nat, nTmp: nat, st: nat)
    requires Matching(p, s, m, n, mTmp, nTmp, st) && m <= m' <= |p| && n <= n' <= |s| && n' - n == m' - m &&
             NoStar(p[m..m'])
    requires Glob(p[m..], s[n..]) <==> Glob(p[m'..], s[n'..])
    ensures Matching(p, s, m', n', mTmp, nTmp, st)
  {
    if mTmp > 0 {
      assert p[mTmp..m'] == p[mTmp..m] + p[m..m'];
    }
  }

  /** The try has failed: the next one starts one character later, if there is one. */
  lemma Backtrack(p: seq<Token>, s: string, m: nat, n: nat, mTmp: nat, nTmp: nat, st: nat)
    requires Matching(p, s, m, n, mTmp, nTmp, st) && !Glob(p[m..], s[n..])
    ensures mTmp == 0 ==> !Glob(p, s)
    ensures mTmp > 0 ==> mTmp <= |p| && nTmp < |s|
    ensures mTmp > 0 && nTmp + 1 < |s| ==> Matching(p, s, mTmp, nTmp + 1, mTmp, nTmp + 1, nTmp + 1)
    ensures mTmp > 0 && nTmp + 1 == |s| ==> !Glob(p, s)
  {
    if mTmp > 0 {
      LaterStep(p[mTmp..], s, nTmp);
    }
  }

  /** The first part of a step: a run of wildcards; a star becomes the place to go back to. */
  method TakeRun(p: seq<Token>, s: string, m0: nat, n0: nat, mTmp0: nat, nTmp0: nat, ghost st0: nat)
    returns (m: nat, n: nat, mTmp: nat, nTmp: nat, ghost st: nat, short: bool, all: bool)
    requires Matching(p, s, m0, n0, mTmp0, nTmp0, st0) && m0 < |p| && !p[m0].Lit?
    ensures short ==> !Glob(p[m0..], s[n0..]) && mTmp == mTmp0 && nTmp == nTmp0
    ensures all ==> !short && Glob(p, s)
    ensures !short && !all ==> m0 < m <= |p| && n <= |s| && nTmp0 <= nTmp <= n && (m == |p| || p[m].Lit?)
    ensures !short && !all && n < |s| ==> Matching(p, s, m, n, mTmp, nTmp, st)
    ensures !short && !all && n == |s| ==> (Glob(p, s) <==> m == |p|)
  {
    hide Glob, StarFirst;
    var star;
    mTmp, nTmp, st, all := mTmp0, nTmp0, st0, false;
    m, n, star, short := SkipRun(p, s, m0, n0);
    if short {
      return;
    }
    if star {
      if mTmp > 0 {
        NewStar(p, s, m0, n0, mTmp, nTmp, st);
      }
      if m == |p| {
        assert p[m..] == [];
        AllTaken(s[n..]);
        all := true;
        return;
      }
      mTmp, nTmp := m, n;
      n := Scan(p, s, m, n);
      st := n;
      Found(p, s, m, nTmp, n);
    } else {
      Onward(p, s, m0, n0, m, n, mTmp, nTmp, st);
    }
    AtEnd(p, s, m, n, mTmp, nTmp, st);
  }

  lemma AtEnd(p: seq<Token>, s: string, m: nat, n: nat, mTmp: nat, nTmp: nat, st: nat)
    requires m <= |p| && n <= |s| && (m == |p| || p[m].Lit?)
    requires if mTmp == 0 then Glob(p, s) <==> Glob(p[m..], s[n..]) else Trying(p, s, m, n, mTmp, nTmp, st)
    ensures n == |s| ==> (Glob(p, s) <==> m == |p|)
  {
    if n == |s| && m < |p| && mTmp > 0 {
      TextEnds(p, s, m, mTmp, nTmp, st);
    }
  }

  /** match(). */
  method Match(p: seq<Token>, s: string) returns (r: bool)
    ensures r <==> Glob(p, s)
  {
    hide Glob, Trying;
    var m: nat, n: nat, mTmp: nat, nTmp: nat := 0, 0, 0, 0;
    ghost var st: nat := 0;
    MatchStart(p, s);
    while true
      invariant Matching(p, s, m, n, mTmp, nTmp, st)
      decreases |s| - nTmp, |p| - m
    {
      ghost var m0, n0, st0 := m, n, st;
      var short := false;
      if m < |p| && !p[m].Lit? {
        var all;
        m, n, mTmp, nTmp, st, short, all := TakeRun(p, s, m, n, mTmp, nTmp, st);
        if all {
          return true;
        }
      } else {
        AtEnd(p, s, m, n, mTmp, nTmp, st) by {
          Plainly(p, s, m, n, mTmp, nTmp, st);
        }
      }
      if !short && n == |s| {
        return m == |p|;
      }
      if !short && m < |p| && ToLower(p[m].c) == ToLower(s[n]) {
        Advance(p, s, m, n, mTmp, nTmp, st);
        m, n := m + 1, n + 1;
      } else {
        if short {
          Backtrack(p, s, m0, n0, mTmp, nTmp, st0);
        } else {
          Differs(p, s, m, n);
          Backtrack(p, s, m, n, mTmp, nTmp, st);
        }
        if mTmp == 0 {
          return false;
        }
        m, nTmp := mTmp, nTmp + 1;
        n, st := nTmp, nTmp;
        if n == |s| {
          return false;
        }
      }
    }
  }

  lemma Plainly(p: seq<Token>, s: string, m: nat, n: nat, mTmp: nat, nTmp: nat, st: nat)
    requires Matching(p, s, m, n, mTmp, nTmp, st)
    ensures if mTmp == 0 then Glob(p, s) <==> Glob(p[m..], s[n..]) else Trying(p, s, m, n, mTmp, nTmp, st)
  {
  }

  lemma Differs(p: seq<Token>, s: string, m: nat, n: nat)
    requires m <= |p| && n < |s| && (m < |p| ==> p[m].Lit? && ToLower(p[m].c) != ToLower(s[n]))
    ensures !Glob(p[m..], s[n..])
  {
  }

  lemma AllTaken(x: string)
    ensures Glob([Star] + [], x)
  {
    if x != "" {
      AllTaken(x[1..]);
    }
  }

  /** The characters up to the first that the token at m takes. */
  method Scan(p: seq<Token>, s: string, m: nat, n0: nat) returns (n: nat)
    requires m < |p| && p[m].Lit? && n0 <= |s|
    ensures n0 <= n <= |s| && forall j :: n0 <= j < n ==> !Glob(p[m..], s[j..])
  {
    n := n0;
    while n < |s| && ToLower(s[n]) != ToLower(p[m].c)
      invariant n0 <= n <= |s| && forall j :: n0 <= j < n ==> !Glob(p[m..], s[j..])
    {
      n := n + 1;
    }
  }

  lemma Found(p: seq<Token>, s: string, m: nat, n0: nat, n: nat)
    requires 0 < m < |p| && p[m].Lit? && n0 <= n <= |s| && forall j :: n0 <= j < n ==> !Glob(p[m..], s[j..])
    requires Glob(p, s) <==> Glob([Star] + p[m..], s[n0..])
    ensures Trying(p, s, m, n, m, n0, n)
  {
    hide Glob;
    StarTakes(p[m..], s, n0);
  }

  // ----- mmatch

  /** The rest of the older mask covers the newer one from some place behind k on. */
  ghost predicate LaterSub(q: seq<Token>, w: seq<Token>, k: nat) {
    exists j :: k < j <= |w| && Sub(q, w[j..])
  }

  lemma LaterSubStep(q: seq<Token>, w: seq<Token>, n: nat)
    requires n < |w|
    ensures LaterSub(q, w, n) <==> Sub(q, w[n + 1..]) || LaterSub(q, w, n + 1)
  {
  }

  lemma {:induction false} SubStarTakes(q: seq<Token>, w: seq<Token>, n: nat)
    requires n <= |w| && Sub([Star] + q, w[n..])
    ensures Sub(q, w[n..]) || LaterSub(q, w, n)
    decreases |w| - n
  {
    assert ([Star] + q)[1..] == q;
    if !Sub(q, w[n..]) {
      assert w[n..][1..] == w[n + 1..];
      SubStarTakes(q, w, n + 1);
      LaterSubStep(q, w, n);
    }
  }

  lemma {:induction false} SubPartTakes(seg: seq<Token>, q: seq<Token>, x: seq<Token>)
    requires NoStar(seg) && Sub(seg + q, x)
    ensures |seg| <= |x| && Sub(q, x[|seg|..])
  {
    if seg == [] {
      assert seg + q == q && x[0..] == x;
    } else {
      assert (seg + q)[0] == seg[0] && (seg + q)[1..] == seg[1..] + q;
      SubPartTakes(seg[1..], q, x[1..]);
      assert x[1..][|seg| - 1..] == x[|seg|..];
    }
  }

  lemma {:induction false} SubEarlier(q: seq<Token>, x: seq<Token>, k: nat)
    requires q != [] && q[0].Star? && k <= |x| && Sub(q, x[k..])
    ensures Sub(q, x)
    decreases k
  {
    if k == 0 {
      assert x[0..] == x;
    } else {
      assert x[1..][k - 1..] == x[k..];
      SubEarlier(q, x[1..], k - 1);
    }
  }

  lemma {:induction false} SubConcat(a: seq<Token>, b: seq<Token>, c: seq<Token>, d: seq<Token>)
    requires Sub(a, b) && Sub(c, d)
    ensures Sub(a + c, b + d)
    decreases |a| + |b|
  {
    if a == [] {
      assert a + c == c && b + d == d;
    } else {
      assert (a + c)[0] == a[0] && (a + c)[1..] == a[1..] + c;
      if a[0].Star? && Sub(a[1..], b) {
        SubConcat(a[1..], b, c, d);
      } else {
        assert (b + d)[0] == b[0] && (b + d)[1..] == b[1..] + d;
        SubConcat(if a[0].Star? then a else a[1..], b[1..], c, d);
      }
    }
  }

  lemma {:induction false} StarCoversAll(x: seq<Token>)
    ensures Sub([Star], x)
  {
    if x != [] {
      StarCoversAll(x[1..]);
    }
  }

  /** A mask that ends with a star covers one token more. */
  lemma {:induction false} StarAbsorbs(a: seq<Token>, b: seq<Token>, y: Token)
    requires a != [] && a[|a| - 1].Star? && Sub(a, b)
    ensures Sub(a, b + [y])
    decreases |a| + |b|
  {
    if |a| == 1 {
      assert a == [Star];
      StarCoversAll(b + [y]);
    } else if a[0].Star? && Sub(a[1..], b) {
      StarAbsorbs(a[1..], b, y);
    } else {
      assert (b + [y])[0] == b[0] && (b + [y])[1..] == b[1..] + [y];
      StarAbsorbs(if a[0].Star? then a else a[1..], b[1..], y);
    }
  }

  /**
   The older mask up to m covers the newer one up to n; the last star is in front of ma, and what follows it was
   tried from na on. If one mask covers the other, then from here or from a later place.
   */
  ghost predicate Covering(o: seq<Token>, w: seq<Token>, m: nat, n: nat, ma: nat, na: nat, wild: bool) {
    && ma <= m <= |o| && na <= n <= |w| && Sub(o[..m], w[..n])
    && (Sub(o, w) ==> Sub(o[m..], w[n..]) || (wild && LaterSub(o[ma..], w, na)))
    && if !wild then ma == 0 else
         && 0 < ma && n - na == m - ma && o[ma - 1].Star? && (ma < |o| ==> !o[ma].Star?)
         && Sub(o[..ma], w[..na]) && NoStar(o[ma..m])
  }

  lemma CoverStart(o: seq<Token>, w: seq<Token>)
    ensures Covering(o, w, 0, 0, 0, 0, false)
  {
    assert o[0..] == o && w[0..] == w;
  }

  /** One star of a run is skipped. */
  lemma StarSkipped(o: seq<Token>, w: seq<Token>, m: nat, n: nat)
    requires m < |o| && o[m].Star? && n <= |w| && Sub(o[..m], w[..n])
    ensures Sub(o[..m + 1], w[..n])
    ensures Sub(o[m..], w[n..]) || LaterSub(o[m..], w, n) ==> Sub(o[m + 1..], w[n..]) || LaterSub(o[m + 1..], w, n)
  {
    Behind(o, m);
    SubConcat(o[..m], w[..n], [Star], []);
    assert o[..m + 1] == o[..m] + [Star] && w[..n] + [] == w[..n];
    if Sub(o[m..], w[n..]) || LaterSub(o[m..], w, n) {
      if !Sub(o[m..], w[n..]) {
        var j :| n < j <= |w| && Sub(o[m..], w[j..]);
        assert w[n..][j - n..] == w[j..];
        SubEarlier(o[m..], w[n..], j - n);
      }
      SubStarTakes(o[m + 1..], w, n);
    }
  }

  /** A new star takes in all that later tries from the last one could find. */
  lemma NewStarCovers(o: seq<Token>, w: seq<Token>, m: nat, n: nat, ma: nat, na: nat, wild: bool)
    requires Covering(o, w, m, n, ma, na, wild) && m < |o| && o[m].Star? && Sub(o, w)
    ensures Sub(o[m..], w[n..])
  {
    if !Sub(o[m..], w[n..]) {
      LaterSubReaches(o, w, m, n, ma, na);
      var j :| n < j <= |w| && Sub(o[m..], w[j..]);
      assert w[n..][j - n..] == w[j..];
      SubEarlier(o[m..], w[n..], j - n);
    }
  }

  lemma LaterSubReaches(o: seq<Token>, w: seq<Token>, m: nat, n: nat, ma: nat, na: nat)
    requires 0 < ma <= m <= |o| && n <= |w| && na <= n && n - na == m - ma && NoStar(o[ma..m]) &&
             LaterSub(o[ma..], w, na)
    ensures LaterSub(o[m..], w, n)
  {
    hide Sub;
    var j :| na < j <= |w| && Sub(o[ma..], w[j..]);
    assert o[ma..] == o[ma..m] + o[m..];
    SubPartTakes(o[ma..m], o[m..], w[j..]);
    assert w[j..][m - ma..] == w[j + (m - ma)..];
  }

  method SkipStars(o: seq<Token>, w: seq<Token>, m0: nat, n: nat, ghost ma: nat, ghost na: nat, ghost wild: bool)
    returns (m: nat)
    requires Covering(o, w, m0, n, ma, na, wild) && m0 < |o| && o[m0].Star?
    ensures m0 < m <= |o| && Covering(o, w, m, n, m, n, true) && (m < |o| ==> !o[m].Star?)
  {
    hide Sub, LaterSub;
    if Sub(o, w) {
      NewStarCovers(o, w, m0, n, ma, na, wild);
    }
    m := m0;
    while m < |o| && o[m].Star?
      invariant m0 <= m <= |o| && (m0 < m ==> o[m - 1].Star?) && Sub(o[..m], w[..n])
      invariant Sub(o, w) ==> Sub(o[m..], w[n..]) || LaterSub(o[m..], w, n)
    {
      StarSkipped(o, w, m, n);
      m := m + 1;
    }
  }

  /** The tokens at m and n agree. */
  lemma CoverNext(o: seq<Token>, w: seq<Token>, m: nat, n: nat, ma: nat, na: nat, wild: bool)
    requires Covering(o, w, m, n, ma, na, wild) && m < |o| && n < |w| && !o[m].Star? && Fits(o[m], w[n])
    ensures Covering(o, w, m + 1, n + 1, ma, na, wild)
  {
    Behind(o, m);
    assert w[n..][1..] == w[n + 1..];
    SubConcat(o[..m], w[..n], [o[m]], [w[n]]);
    assert o[..m + 1] == o[..m] + [o[m]] && w[..n + 1] == w[..n] + [w[n]];
    if wild {
      assert o[ma..m + 1] == o[ma..m] + [o[m]];
    }
  }

  /** The try has failed: the star takes one token more, if there is a star. */
  lemma CoverBack(o: seq<Token>, w: seq<Token>, m: nat, n: nat, ma: nat, na: nat, wild: bool)
    requires Covering(o, w, m, n, ma, na, wild) && n < |w| && !Sub(o[m..], w[n..])
    ensures if wild then Covering(o, w, ma, na + 1, ma, na + 1, true) else !Sub(o, w)
  {
    if wild {
      LaterSubStep(o[ma..], w, na);
      StarAbsorbs(o[..ma], w[..na], w[na]);
      assert w[..na + 1] == w[..na] + [w[na]];
    }
  }

  // ----- the end of the older mask

  /** Behind the star at i there are only question marks. */
  predicate StarThenAny(o: seq<Token>, i: nat) {
    i < |o| && o[i].Star? && forall j :: i < j < |o| ==> o[j].Any?
  }

  lemma {:induction false} EnoughLeft(q: seq<Token>, z: string)
    requires forall j :: 0 <= j < |q| ==> q[j].Any?
    ensures Glob(q, z) <==> |z| == |q|
  {
    if q != [] && z != "" {
      EnoughLeft(q[1..], z[1..]);
    }
  }

  lemma {:induction false} EnoughBehindStar(o: seq<Token>, z: string)
    requires StarThenAny(o, 0)
    ensures Glob(o, z) <==> |z| >= |o| - 1
  {
    EnoughLeft(o[1..], z);
    if z != "" {
      EnoughBehindStar(o, z[1..]);
    }
  }

  /** A mask that ends so still matches when the text gets longer. */
  lemma {:induction false} TailGrows(o: seq<Token>, i: nat, x: string, y: string)
    requires StarThenAny(o, i) && Glob(o, x)
    ensures Glob(o, x + y)
    decreases |o| + |x|
  {
    if i == 0 {
      EnoughBehindStar(o, x);
      EnoughBehindStar(o, x + y);
    } else if o[0].Star? && Glob(o[1..], x) {
      TailGrows(o[1..], i - 1, x, y);
    } else {
      assert (x + y)[0] == x[0] && (x + y)[1..] == x[1..] + y;
      if o[0].Star? {
        TailGrows(o, i, x[1..], y);
      } else {
        TailGrows(o[1..], i - 1, x[1..], y);
      }
    }
  }

  /** The first n tokens match the front of a text that the mask matches. */
  lemma {:induction false} FrontMatches(w: seq<Token>, n: nat, s: string) returns (j: nat)
    requires n <= |w| && Glob(w, s)
    ensures j <= |s| && Glob(w[..n], s[..j])
    decreases |w| + |s|
  {
    if n == 0 {
      j := 0;
    } else if w[0].Star? && Glob(w[1..], s) {
      j := FrontMatches(w[1..], n - 1, s);
      assert w[..n][1..] == w[1..][..n - 1];
    } else {
      var k := FrontMatches(if w[0].Star? then w else w[1..], if w[0].Star? then n else n - 1, s[1..]);
      j := k + 1;
      assert w[..n][1..] == w[1..][..n - 1] && s[..j][1..] == s[1..][..k];
    }
  }

  lemma TailIncludes(o: seq<Token>, i: nat, w: seq<Token>, n: nat)
    requires StarThenAny(o, i) && n <= |w| && Sub(o, w[..n])
    ensures Includes(o, w)
  {
    hide Sub, Glob, StarThenAny;
    forall s | Glob(w, s) ensures Glob(o, s) {
      var j := FrontMatches(w, n, s);
      SubSound(o, w[..n], s[..j]);
      TailGrows(o, i, s[..j], s[j..]);
      assert s[..j] + s[j..] == s;
    }
  }

  /** The look back from the end of the older mask. */
  method LookBack(o: seq<Token>) returns (found: bool, ghost i: nat)
    ensures found ==> StarThenAny(o, i)
  {
    if o == [] {
      return false, 0;
    }
    var m := |o| - 1;
    while m > 0 && o[m].Any?
      invariant 0 <= m < |o| && forall j :: m < j < |o| ==> o[j].Any?
    {
      m := m - 1;
    }
    return o[m].Star? && m > 0, m;
  }

  lemma Ended(o: seq<Token>, w: seq<Token>, n: nat, ma: nat, na: nat, wild: bool)
    requires Covering(o, w, |o|, n, ma, na, wild)
    ensures Sub(o, w[..n]) && (n == |w| ==> Includes(o, w)) && (n < |w| ==> !Sub(o[|o|..], w[n..]))
  {
    assert o[..|o|] == o;
    if n == |w| {
      assert w[..n] == w;
      SubIncludes(o, w);
    }
  }

  lemma NothingLeft(o: seq<Token>, w: seq<Token>, m: nat, ma: nat, na: nat, wild: bool)
    requires Covering(o, w, m, |w|, ma, na, wild) && m < |o| && !o[m].Star?
    ensures !Sub(o, w)
  {
    if wild && LaterSub(o[ma..], w, na) {
      LaterSubReaches(o, w, m, |w|, ma, na);
    }
  }

  lemma Disagree(o: seq<Token>, w: seq<Token>, m: nat, n: nat)
    requires m <= |o| && n < |w| && (m < |o| ==> !o[m].Star? && !Fits(o[m], w[n]))
    ensures !Sub(o[m..], w[n..])
  {
  }

  /** Where the next try starts. */
  lemma Places(o: seq<Token>, w: seq<Token>, m: nat, n: nat, ma: nat, na: nat)
    requires Covering(o, w, m, n, ma, na, true)
    ensures ma <= m && na <= n && (ma < m ==> na < n) && (ma < |o| ==> !o[ma].Star?)
  {
  }

  /**
   mmatch(): it finds every mask that covers the other token by token, and whatever it finds matches all that the
   other one matches.
   */
  method MMatch(o: seq<Token>, w: seq<Token>) returns (r: bool)
    ensures Sub(o, w) ==> r
    ensures r ==> Includes(o, w)
  {
    hide Glob, Sub, Covering, Includes;
    var m: nat, n: nat, ma: nat, na: nat, wild := 0, 0, 0, 0, false;
    CoverStart(o, w);
    while true
      invariant Covering(o, w, m, n, ma, na, wild)
      invariant na <= n <= |w| && m <= |o|
      decreases |w| - na, |o| - m
    {
      if m < |o| && o[m].Star? {
        m := SkipStars(o, w, m, n, ma, na, wild);
        ma, na, wild := m, n, true;
      }
      if m == |o| {
        Ended(o, w, n, ma, na, wild);
        if n == |w| {
          return true;
        }
        var tail, i := LookBack(o);
        if tail {
          TailIncludes(o, i, w, n);
          return true;
        }
        CoverBack(o, w, m, n, ma, na, wild);
        if !wild {
          return false;
        }
        Places(o, w, m, n, ma, na);
        m, na := ma, na + 1;
        n := na;
      } else if n == |w| {
        NothingLeft(o, w, m, ma, na, wild);
        return false;
      }
      if m < |o| && Fits(o[m], w[n]) {
        CoverNext(o, w, m, n, ma, na, wild);
        m, n := m + 1, n + 1;
      } else if m < |o| || n < |w| {
        Disagree(o, w, m, n);
        CoverBack(o, w, m, n, ma, na, wild);
        if !wild {
          return false;
        }
        Places(o, w, m, n, ma, na);
        m, na := ma, na + 1;
        n := na;
      }
    }
  }
}
