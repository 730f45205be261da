/**
 The mask simplifier collapse() (ircd/match.c): a simplified mask stands for the same texts, and no '*' in it stands
 in front of another wildcard.
 */
module MaskCollapse {
  import opened CharAttr
  import opened MaskLoops
  import opened Sequences
  import opened Wildcards

  predicate StarRun(m: string) {
    |m| >= 2 && m[0] == '*' && (m[1] == '*' || m[1] == '?')
  }

  /** Leave the mask alone up to the first '*' that another wildcard follows. */
  function Collapse(m: string): string {
    if m == "" then ""
    else if StarRun(m) then Squeeze(m, false)
    else if Escape(m) then m[..2] + Collapse(m[2..])
    else m[..1] + Collapse(m[1..])
  }

  /** From there on, hold every '*' back until no '?' or '*' follows it. */
  function Squeeze(m: string, star: bool): string {
    if m == "" then if star then "*" else ""
    else if m[0] == '*' then Squeeze(m[1..], true)
    else
      var held := star && m[0] != '?';
      (if held then "*" else "") +
      if Escape(m) then m[..2] + Squeeze(m[2..], star && !held) else m[..1] + Squeeze(m[1..], star && !held)
  }

  lemma CollapseFixed(m: string)
    requires forall i :: 0 <= i < |m| - 1 ==> !(m[i] == '*' && (m[i + 1] == '*' || m[i + 1] == '?'))
    ensures Collapse(m) == m
  {
    if m != "" && !StarRun(m) {
      if Escape(m) {
        CollapseFixed(m[2..]);
      } else {
        CollapseFixed(m[1..]);
      }
    }
  }

  // ----- what is kept

  /** p and q match the same texts. */
  ghost predicate Same(p: seq<Token>, q: seq<Token>) {
    forall s :: Glob(p, s) <==> Glob(q, s)
  }

  lemma {:induction false} SameBehind(t: Token, p: seq<Token>, q: seq<Token>, s: string)
    requires Same(p, q)
    ensures Glob([t] + p, s) <==> Glob([t] + q, s)
    decreases |s|
  {
    assert ([t] + p)[1..] == p && ([t] + q)[1..] == q;
    if s != "" {
      SameBehind(t, p, q, s[1..]);
    }
  }

  lemma AllBehind(t: Token, p: seq<Token>, q: seq<Token>)
    requires Same(p, q)
    ensures Same([t] + p, [t] + q)
  {
    forall s {
      SameBehind(t, p, q, s);
    }
  }

  lemma StarsMerge(q: seq<Token>)
    ensures Same([Star] + q, [Star] + ([Star] + q))
  {
    forall s {
      StarStar(q, s);
    }
  }

  lemma StarMoves(q: seq<Token>)
    ensures Same([Any] + ([Star] + q), [Star] + ([Any] + q))
  {
    forall s ensures Glob([Any] + ([Star] + q), s) <==> Glob([Star] + ([Any] + q), s) {
      StarAny(q, s);
      assert ([Any] + ([Star] + q))[1..] == [Star] + q;
    }
  }

  /** The first token of a mask, and where the rest of the mask begins. */
  function First(m: string): Token
    requires m != ""
  {
    if Escape(m) then Lit(m[1]) else One(m[0])
  }

  function Size(m: string): (n: nat)
    requires m != ""
    ensures 0 < n <= |m|
  {
    if Escape(m) then 2 else 1
  }

  lemma TokensFirst(m: string)
    requires m != ""
    ensures Tokens(m) == [First(m)] + Tokens(m[Size(m)..])
  {
  }

  /** A token in front of a text whose first character cannot be taken for an escaped one. */
  lemma TokensJoin(m: string, x: string)
    requires m != "" && (m[0] == '\\' && Size(m) == 1 ==> x == "" || !Wildcard(x[0]))
    ensures Tokens(m[..Size(m)] + x) == [First(m)] + Tokens(x)
  {
    var text := m[..Size(m)] + x;
    assert text[Size(m)..] == x && Size(text) == Size(m);
  }

  /** What is left of a mask that does not begin with a wildcard does not either. */
  lemma KeepsFirst(m: string)
    requires m != "" && !Wildcard(m[0])
    ensures Squeeze(m, false) != "" && Squeeze(m, false)[0] == m[0]
    ensures Collapse(m) != "" && Collapse(m)[0] == m[0]
  {
  }

  lemma NotBehindBackslash(m: string)
    requires m != "" && m[0] == '\\' && Size(m) == 1
    ensures Squeeze(m[1..], false) == "" || !Wildcard(Squeeze(m[1..], false)[0])
    ensures Collapse(m[1..]) == "" || !Wildcard(Collapse(m[1..])[0])
  {
    if m[1..] != "" {
      KeepsFirst(m[1..]);
    }
  }

  /** Squeeze by whole tokens. */
  lemma SqueezeStep(m: string, star: bool)
    requires m != ""
    ensures First(m).Star? ==> Squeeze(m, star) == Squeeze(m[1..], true)
    ensures First(m).Any? ==> Squeeze(m, star) == m[..1] + Squeeze(m[1..], star)
    ensures First(m).Lit? && star ==> Squeeze(m, star) == "*" + (m[..Size(m)] + Squeeze(m[Size(m)..], false))
    ensures First(m).Lit? && !star ==> Squeeze(m, star) == m[..Size(m)] + Squeeze(m[Size(m)..], false)
  {
    var rest := Squeeze(m[Size(m)..], false);
    assert "" + (m[..Size(m)] + rest) == m[..Size(m)] + rest;
  }

  ghost function Held(star: bool, q: seq<Token>): seq<Token> {
    if star then [Star] + q else q
  }

  lemma StarText(x: string)
    ensures Tokens("*" + x) == [Star] + Tokens(x)
  {
    assert ("*" + x)[1..] == x;
  }

  lemma {:induction false} SqueezeSame(m: string, star: bool)
    ensures Same(Tokens(Squeeze(m, star)), Held(star, Tokens(m)))
    decreases |m|
  {
    if m == "" {
      StarText("");
      assert "*" + "" == "*";
    } else {
      hide Squeeze, Tokens, Glob;
      var t, n := First(m), Size(m);
      var q := Tokens(m[n..]);
      TokensFirst(m);
      SqueezeStep(m, star);
      SqueezeSame(m[n..], t.Star? || (t.Any? && star));
      match t {
        case Star =>
          if star {
            StarsMerge(q);
          }
        case Any =>
          TokensJoin(m, Squeeze(m[n..], star));
          AllBehind(Any, Tokens(Squeeze(m[n..], star)), Held(star, q));
          if star {
            StarMoves(q);
          }
        case Lit(_) =>
          if m[0] == '\\' && n == 1 {
            NotBehindBackslash(m);
          }
          var rest := Squeeze(m[n..], false);
          TokensJoin(m, rest);
          AllBehind(t, Tokens(rest), q);
          if star {
            StarText(m[..n] + rest);
            AllBehind(Star, [t] + Tokens(rest), [t] + q);
          }
      }
    }
  }

  /** A collapsed mask stands for the same texts. */
  lemma {:induction false} CollapseSame(m: string)
    ensures Same(Tokens(Collapse(m)), Tokens(m))
    decreases |m|
  {
    if m != "" {
      if StarRun(m) {
        SqueezeSame(m, false);
      } else {
        hide Squeeze, Tokens, Glob;
        var n := Size(m);
        TokensFirst(m);
        CollapseSame(m[n..]);
        if m[0] == '\\' && n == 1 {
          NotBehindBackslash(m);
        }
        TokensJoin(m, Collapse(m[n..]));
        AllBehind(First(m), Tokens(Collapse(m[n..])), Tokens(m[n..]));
      }
    }
  }

  /** No star stands in front of another wildcard. */
  predicate Tidy(p: seq<Token>) {
    forall i :: 0 < i < |p| && p[i - 1].Star? ==> p[i].Lit?
  }

  lemma TidyBehind(t: Token, p: seq<Token>)
    requires Tidy(p) && (t.Star? && p != [] ==> p[0].Lit?)
    ensures Tidy([t] + p)
  {
    forall i | 0 < i < |[t] + p| && ([t] + p)[i - 1].Star? ensures ([t] + p)[i].Lit? {
      assert i > 1 ==> p[i - 2].Star?;
    }
  }

  lemma {:induction false} SqueezeTidy(m: string, star: bool)
    ensures Tidy(Tokens(Squeeze(m, star)))
    decreases |m|
  {
    if m == "" {
      StarText("");
      assert "*" + "" == "*";
    } else {
      hide Squeeze, Tokens, Tidy;
      var t, n := First(m), Size(m);
      SqueezeStep(m, star);
      SqueezeTidy(m[n..], t.Star? || (t.Any? && star));
      if t.Any? {
        TokensJoin(m, Squeeze(m[n..], star));
        TidyBehind(Any, Tokens(Squeeze(m[n..], star)));
      } else if t.Lit? {
        if m[0] == '\\' && n == 1 {
          NotBehindBackslash(m);
        }
        var rest := Squeeze(m[n..], false);
        TokensJoin(m, rest);
        TidyBehind(t, Tokens(rest));
        if star {
          StarText(m[..n] + rest);
          TidyBehind(Star, [t] + Tokens(rest));
        }
      }
    }
  }

  lemma {:induction false} CollapseTidy(m: string)
    ensures Tidy(Tokens(Collapse(m)))
    decreases |m|
  {
    if m != "" {
      if StarRun(m) {
        SqueezeTidy(m, false);
      } else {
        hide Squeeze, Tidy;
        var n := Size(m);
        CollapseTidy(m[n..]);
        if m[0] == '\\' && n == 1 {
          NotBehindBackslash(m);
        }
        TokensJoin(m, Collapse(m[n..]));
        if First(m).Star? && m[n..] != "" {
          KeepsFirst(m[n..]);
          assert Tokens(Collapse(m[n..]))[0].Lit?;
        }
        TidyBehind(First(m), Tokens(Collapse(m[n..])));
      }
    }
  }

  // ----- the loops

  /** One round of the first loop: a token that stays as it is. */
  lemma CollapseRest(m: string, i: nat)
    requires i < |m| && !StarRun(m[i..])
    ensures var n := Size(m[i..]);
            m[..i] + Collapse(m[i..]) == m[..i + n] + Collapse(m[i + n..])
  {
    var rest, n := m[i..], Size(m[i..]);
    assert Collapse(rest) == rest[..n] + Collapse(rest[n..]);
    assert rest[n..] == m[i + n..];
    hide Collapse;
    assert m[..i + n] == m[..i] + rest[..n];
    Associate(m[..i], rest[..n], Collapse(rest[n..]));
  }

  /** One round of the second loop: a star is held back, or one token written. */
  lemma SqueezeRest(m: string, j: nat, b: string, star: bool)
    requires j < |m|
    ensures var rest := m[j..]; var n := Size(rest);
            if m[j] == '*' then Squeeze(rest, star) == Squeeze(m[j + 1..], true)
            else
              var held := star && m[j] != '?';
              b + Squeeze(rest, star)
              == (b + (if held then "*" else "") + rest[..n]) + Squeeze(m[j + n..], star && !held)
  {
    var rest, n := m[j..], Size(m[j..]);
    assert rest[n..] == m[j + n..] && rest[1..] == m[j + 1..];
    if m[j] != '*' {
      var held := star && m[j] != '?';
      var mark, tail := if held then "*" else "", Squeeze(m[j + n..], star && !held);
      assert Squeeze(rest, star) == mark + (rest[..n] + tail);
      hide Squeeze;
      Associate(b, mark, rest[..n] + tail);
      Associate(b + mark, rest[..n], tail);
    }
  }

  /** collapse(): the mask stays as it is up to a star in front of another wildcard; from there on it is rewritten. */
  method Simplify(m: string) returns (b: string)
    ensures b == Collapse(m)
  {
    hide Collapse, Squeeze;
    var i := 0;
    assert m[0..] == m;
    NothingLeft();
    while i < |m| && !StarRun(m[i..])
      invariant i <= |m| && m[..i] + Collapse(m[i..]) == Collapse(m)
    {
      CollapseRest(m, i);
      i := i + if Escape(m[i..]) then 2 else 1;
    }
    b := m[..i];
    if i == |m| {
      assert m[i..] == "" && b + "" == b;
      return;
    }
    RunBegins(m[i..]);
    var star := false;
    while i < |m|
      invariant i <= |m| && b + Squeeze(m[i..], star) == Collapse(m)
    {
      SqueezeRest(m, i, b, star);
      if m[i] == '*' {
        star := true;
      } else {
        assert b + "" == b;
        if star && m[i] != '?' {
          b := b + "*";
          star := false;
        }
        if Escape(m[i..]) {
          b := b + m[i..][..2];
          i := i + 1;
        } else {
          b := b + m[i..][..1];
        }
      }
      i := i + 1;
    }
    assert m[i..] == "" && b + "" == b;
    if star {
      b := b + "*";
    }
  }

  lemma NothingLeft()
    ensures Collapse("") == "" && Squeeze("", false) == "" && Squeeze("", true) == "*"
  {
  }

  lemma RunBegins(m: string)
    requires m != "" && StarRun(m)
    ensures Collapse(m) == Squeeze(m, false)
  {
  }
}
