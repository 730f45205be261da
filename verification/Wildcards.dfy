/**
 Wildcard masks (ircd/match.c): '*' stands for any text, '?' for one character, a backslash makes a
 wildcard an ordinary character, and letters are compared without case.
 */
module Wildcards {
  import opened CharAttr
  import opened Sequences

  datatype Token = Star | Any | Lit(c: char)

  function One(c: char): Token {
    if c == '*' then Star else if c == '?' then Any else Lit(c)
  }

  function Tokens(mask: string): seq<Token> {
    if mask == "" then []
    else if Escape(mask) then [Lit(mask[1])] + Tokens(mask[2..])
    else [One(mask[0])] + Tokens(mask[1..])
  }

  /** No escape directly behind a wildcard: there match() takes the backslash for an ordinary character. */
  predicate Straight(mask: string) {
    forall i :: 0 < i < |mask| && Escape(mask[i..]) ==> !Wildcard(mask[i - 1])
  }

  /** match() == 0: the text is one the mask stands for. */
  predicate Glob(p: seq<Token>, s: string)
    decreases |p| + |s|
  {
    if p == [] then s == ""
    else
      match p[0]
      case Star => Glob(p[1..], s) || (s != "" && Glob(p, s[1..]))
      case Any => s != "" && Glob(p[1..], s[1..])
      case Lit(c) => s != "" && ToLower(c) == ToLower(s[0]) && Glob(p[1..], s[1..])
  }

  /** One token other than a star against one of the mask it may cover: '?' is a superset of anything but '*'. */
  predicate Fits(o: Token, n: Token)
    requires !o.Star?
  {
    match o
    case Any => !n.Star?
    case Lit(c) => n.Lit? && ToLower(c) == ToLower(n.c)
  }

  /** mmatch() == 0: the older mask is a superset of the newer one. */
  predicate Sub(older: seq<Token>, newer: seq<Token>)
    decreases |older| + |newer|
  {
    if older == [] then newer == []
    else if older[0].Star? then Sub(older[1..], newer) || (newer != [] && Sub(older, newer[1..]))
    else newer != [] && Fits(older[0], newer[0]) && Sub(older[1..], newer[1..])
  }

  /** A mask held to cover another one matches whatever the other matches. */
  lemma {:induction false} SubSound(older: seq<Token>, newer: seq<Token>, s: string)
    requires Sub(older, newer) && Glob(newer, s)
    ensures Glob(older, s)
    decreases |older| + |newer| + |s|
  {
    if older != [] && older[0].Star? {
      if Sub(older[1..], newer) {
        SubSound(older[1..], newer, s);
      } else if newer[0].Star? && Glob(newer[1..], s) {
        SubSound(older, newer[1..], s);
      } else if newer[0].Star? {
        SubSound(older, newer, s[1..]);
      } else {
        SubSound(older, newer[1..], s[1..]);
      }
    } else if older != [] {
      SubSound(older[1..], newer[1..], s[1..]);
    }
  }

  // ----- the '@' between user and host

  const AT: seq<Token> := [Lit('@')]

  predicate HasAt(p: seq<Token>) {
    exists i :: 0 <= i < |p| && p[i] == Lit('@')
  }

  lemma OnlyAt(c: char)
    ensures ToLower(c) == ToLower('@') <==> c == '@'
  {
  }

  lemma {:induction false} AtNeedsAt(p: seq<Token>, s: string)
    requires Glob(p, s) && HasAt(p)
    ensures '@' in s
    decreases |p| + |s|
  {
    if p[0].Star? {
      if Glob(p[1..], s) {
        assert HasAt(p[1..]) by {
          AtBehind(p);
        }
        AtNeedsAt(p[1..], s);
      } else {
        AtNeedsAt(p, s[1..]);
      }
    } else {
      if p[0].Lit? {
        OnlyAt(s[0]);
      }
      if p[0] != Lit('@') {
        AtBehind(p);
        AtNeedsAt(p[1..], s[1..]);
      }
    }
  }

  lemma AtBehind(p: seq<Token>)
    requires HasAt(p) && p[0] != Lit('@')
    ensures HasAt(p[1..])
  {
    var i :| 0 <= i < |p| && p[i] == Lit('@');
    assert p[1..][i - 1] == p[i];
  }

  lemma Joined(x: seq<Token>, y: seq<Token>)
    ensures HasAt(x + AT + y)
    ensures x == [] ==> (x + AT + y)[0] == Lit('@') && (x + AT + y)[1..] == y
    ensures x != [] ==> (x + AT + y)[0] == x[0] && (x + AT + y)[1..] == x[1..] + AT + y
  {
    assert (x + AT + y)[|x|] == Lit('@');
  }

  lemma JoinedText(a: string, b: string)
    ensures a == "" ==> (a + "@" + b)[0] == '@' && (a + "@" + b)[1..] == b
    ensures a != "" ==> (a + "@" + b)[0] == a[0] && (a + "@" + b)[1..] == a[1..] + "@" + b
  {
  }

  /** A text with one '@' is matched by a mask with an '@' part by part. */
  lemma {:induction false} GlobSplit(x: seq<Token>, y: seq<Token>, a: string, b: string)
    requires Glob(x + AT + y, a + "@" + b) && '@' !in a && '@' !in b
    ensures Glob(x, a) && Glob(y, b)
    decreases |x| + |a|
  {
    var p, s := x + AT + y, a + "@" + b;
    Joined(x, y);
    JoinedText(a, b);
    if x == [] {
      OnlyAt(s[0]);
    } else if x[0].Star? && Glob(p[1..], s) {
      GlobSplit(x[1..], y, a, b);
    } else if a == "" {
      Joined(x[1..], y);
      AtNeedsAt(if x[0].Star? then p else p[1..], b);
    } else if x[0].Star? {
      GlobSplit(x, y, a[1..], b);
    } else {
      GlobSplit(x[1..], y, a[1..], b);
    }
  }

  lemma {:induction false} GlobJoin(x: seq<Token>, y: seq<Token>, a: string, b: string)
    requires Glob(x, a) && Glob(y, b)
    ensures Glob(x + AT + y, a + "@" + b)
    decreases |x| + |a|
  {
    Joined(x, y);
    JoinedText(a, b);
    if x != [] {
      if !x[0].Star? {
        GlobJoin(x[1..], y, a[1..], b);
      } else if Glob(x[1..], a) {
        GlobJoin(x[1..], y, a, b);
      } else {
        GlobJoin(x, y, a[1..], b);
      }
    }
  }

  /** A text that a mask matches. */
  function Sample(p: seq<Token>): string {
    if p == [] then ""
    else (match p[0] case Star => "" case Any => "x" case Lit(c) => [c]) + Sample(p[1..])
  }

  lemma {:induction false} SampleMatches(p: seq<Token>)
    ensures Glob(p, Sample(p)) && ('@' in Sample(p) ==> HasAt(p))
  {
    if p != [] {
      var rest := Sample(p[1..]);
      SampleMatches(p[1..]);
      if p[0].Star? {
        assert "" + rest == rest;
      } else {
        assert Sample(p)[1..] == rest;
      }
      if '@' in Sample(p) {
        if '@' in rest {
          var i :| 0 <= i < |p[1..]| && p[1..][i] == Lit('@');
          assert p[i + 1] == Lit('@');
        } else {
          assert p[0] == Lit('@');
        }
      }
    }
  }

  lemma {:induction false} TokensConcat(a: string, b: string)
    requires b != "" ==> b[0] != '*' && b[0] != '?'
    ensures Tokens(a + b) == Tokens(a) + Tokens(b)
  {
    if a == "" {
      assert a + b == b;
    } else if Escape(a) {
      TokensConcat(a[2..], b);
      Associate([Lit(a[1])], Tokens(a[2..]), Tokens(b));
      assert (a + b)[2..] == a[2..] + b && Escape(a + b);
    } else {
      TokensConcat(a[1..], b);
      assert (a + b)[1..] == a[1..] + b;
      assert |a| > 1 ==> (a + b)[1] == a[1];
      assert |a| == 1 && b != "" ==> (a + b)[1] == b[0];
      assert !Escape(a + b);
      hide Escape;
      Associate([One(a[0])], Tokens(a[1..]), Tokens(b));
    }
  }

  lemma {:induction false} NoAt(mask: string)
    requires '@' !in mask
    ensures !HasAt(Tokens(mask))
  {
    if mask != "" {
      NoAt(if Escape(mask) then mask[2..] else mask[1..]);
    }
  }

  lemma {:induction false} TextTokens(nu: string, host: string)
    ensures Tokens(nu + "@" + host) == Tokens(nu) + AT + Tokens(host)
  {
    TokensConcat(nu, "@" + host);
    assert nu + "@" + host == nu + ("@" + host);
    assert ("@" + host)[1..] == host;
    assert Tokens("@" + host) == AT + Tokens(host);
    assert Tokens(nu) + (AT + Tokens(host)) == Tokens(nu) + AT + Tokens(host);
  }

  /** The older mask matches every text that the newer one matches. */
  ghost predicate Includes(older: seq<Token>, newer: seq<Token>) {
    forall s :: Glob(newer, s) ==> Glob(older, s)
  }

  lemma {:induction false} SubIncludes(older: seq<Token>, newer: seq<Token>)
    requires Sub(older, newer)
    ensures Includes(older, newer)
  {
    hide Sub, Glob;
    forall s | Glob(newer, s) ensures Glob(older, s) {
      SubSound(older, newer, s);
    }
  }

  /** If the text of one ban includes that of another, so do both parts, for users and hosts without an '@'. */
  lemma {:induction false} TextIncludes(nu: string, host: string, nu': string, host': string, who: string, from: string)
    requires Includes(Tokens(nu + "@" + host), Tokens(nu' + "@" + host'))
    requires '@' !in who && '@' !in from && Glob(Tokens(nu'), who) && Glob(Tokens(host'), from)
    ensures Glob(Tokens(nu), who) && Glob(Tokens(host), from)
  {
    hide Glob, Tokens;
    TextTokens(nu, host);
    TextTokens(nu', host');
    GlobJoin(Tokens(nu'), Tokens(host'), who, from);
    GlobSplit(Tokens(nu), Tokens(host), who, from);
  }

  // ----- masks that are covered or not by their shape

  lemma {:induction false} SubPrefix(p: seq<Token>, older: seq<Token>, newer: seq<Token>)
    requires Sub(older, newer)
    ensures Sub(p + older, p + newer)
  {
    if p == [] {
      assert p + older == older && p + newer == newer;
    } else {
      SubPrefix(p[1..], older, newer);
      var o, n := p + older, p + newer;
      assert o[0] == n[0] == p[0] && o[1..] == p[1..] + older && n[1..] == p[1..] + newer;
      if p[0].Star? {
        assert Sub(o[1..], n[1..]);
        StarTakesOne(o, n);
      }
    }
  }

  lemma StarTakesOne(o: seq<Token>, n: seq<Token>)
    requires o != [] && o[0].Star? && n != [] && Sub(o[1..], n[1..])
    ensures Sub(o, n)
  {
    assert Sub(o, n[1..]);
  }

  lemma {:induction false} SubSelf(p: seq<Token>)
    ensures Sub(p, p)
  {
    SubPrefix(p, [], []);
    assert p + [] == p;
  }

  lemma NoEscapes(mask: string)
    requires '\\' !in mask
    ensures Straight(mask)
  {
    forall i | 0 < i < |mask| ensures !Escape(mask[i..]) {
      assert mask[i] != '\\';
    }
  }

  /** Without stars and escapes a mask takes as many characters as it has. */
  lemma {:induction false} PlainLength(mask: string, s: string)
    requires '*' !in mask && '\\' !in mask && Glob(Tokens(mask), s)
    ensures |s| == |mask|
  {
    if mask != "" {
      assert Tokens(mask)[0] == One(mask[0]) && Tokens(mask)[1..] == Tokens(mask[1..]);
      PlainLength(mask[1..], s[1..]);
    }
  }
}
