/**
 The language of connection rules. The documented grammar is right recursive; the parser
 builds left-nested trees. Here the parser is shown to accept exactly the sentences of the
 grammar (and, besides them, rules with a missing operand), and to give them the Boolean
 meaning of the grammar.
 */
module CruleGrammar {
  import opened Options
  import opened CruleLexer
  import opened MaskCollapse
  import opened Crule

  datatype OrExpr = OrOne(a: AndExpr) | OrMore(a: AndExpr, more: OrExpr)
  datatype AndExpr = AndOne(p: Primary) | AndMore(p: Primary, more: AndExpr)
  datatype Primary = Apply(name: string, arglist: Toks) | Bang(p: Primary) | Paren(e: OrExpr)

  datatype Lexeme = Sym(tok: Token) | Wd(word: string)
  datatype Toks = Nil | Cons(head: Lexeme, tail: Toks)

  // ----- sentences of the grammar as token lists, each followed by k

  function ToksOr(e: OrExpr, k: Toks): Toks {
    match e
    case OrOne(a) => ToksAnd(a, k)
    case OrMore(a, more) => ToksAnd(a, Cons(Sym(Or), ToksOr(more, k)))
  }

  function ToksAnd(e: AndExpr, k: Toks): Toks {
    match e
    case AndOne(p) => ToksPrim(p, k)
    case AndMore(p, more) => ToksPrim(p, Cons(Sym(And), ToksAnd(more, k)))
  }

  function ToksPrim(p: Primary, k: Toks): Toks {
    match p
    case Apply(name, arglist) => Cons(Wd(name), Cons(Sym(OpenParen), Append(arglist, Cons(Sym(CloseParen), k))))
    case Bang(q) => Cons(Sym(Not), ToksPrim(q, k))
    case Paren(e) => Cons(Sym(OpenParen), ToksOr(e, Cons(Sym(CloseParen), k)))
  }

  function Append(ts: Toks, k: Toks): Toks {
    match ts
    case Nil => k
    case Cons(x, more) => Cons(x, Append(more, k))
  }

  /** The arguments a list of words and commas stands for. */
  function ArgsOf(ts: Toks, curr: string, args: seq<string>): seq<string> {
    match ts
    case Nil => CloseArg(args, curr)
    case Cons(Wd(w), more) => ArgsOf(more, AddWord(curr, w), args)
    case Cons(Sym(_), more) => ArgsOf(more, "", CloseArg(args, curr))
  }

  predicate WordsAndCommas(ts: Toks) {
    match ts
    case Nil => true
    case Cons(x, more) => (x.Wd? || x == Sym(Comma)) && WordsAndCommas(more)
  }

  predicate ValidOr(e: OrExpr) {
    match e
    case OrOne(a) => ValidAnd(a)
    case OrMore(a, more) => ValidAnd(a) && ValidOr(more)
  }

  predicate ValidAnd(e: AndExpr) {
    match e
    case AndOne(p) => ValidPrim(p)
    case AndMore(p, more) => ValidPrim(p) && ValidAnd(more)
  }

  /** Every function is in the table and has as many arguments as the table asks for. */
  predicate ValidPrim(p: Primary) {
    match p
    case Apply(name, arglist) =>
      WordsAndCommas(arglist) && FindFunc(name).Some? && |ArgsOf(arglist, "", [])| == Arity(FindFunc(name).value)
    case Bang(q) => ValidPrim(q)
    case Paren(e) => ValidOr(e)
  }

  // ----- the left-nested tree of a sentence, and its meaning as the grammar nests it

  function TreeOr(e: OrExpr, open: Option<Node>): Node
    requires ValidOr(e)
  {
    match e
    case OrOne(a) => Attach(true, open, TreeAnd(a, None))
    case OrMore(a, more) => TreeOr(more, Some(Attach(true, open, TreeAnd(a, None))))
  }

  function TreeAnd(e: AndExpr, open: Option<Node>): Node
    requires ValidAnd(e)
  {
    match e
    case AndOne(p) => Attach(false, open, TreePrim(p))
    case AndMore(p, more) => TreeAnd(more, Some(Attach(false, open, TreePrim(p))))
  }

  function TreePrim(p: Primary): Node
    requires ValidPrim(p)
  {
    match p
    case Apply(name, arglist) => Call(FindFunc(name).value, ArgsOf(arglist, "", []))
    case Bang(q) => Negate(TreePrim(q))
    case Paren(e) => TreeOr(e, None)
  }

  predicate MeaningOr(e: OrExpr, leaf: Leaf)
    requires ValidOr(e)
  {
    match e
    case OrOne(a) => MeaningAnd(a, leaf)
    case OrMore(a, more) => MeaningAnd(a, leaf) || MeaningOr(more, leaf)
  }

  predicate MeaningAnd(e: AndExpr, leaf: Leaf)
    requires ValidAnd(e)
  {
    match e
    case AndOne(p) => MeaningPrim(p, leaf)
    case AndMore(p, more) => MeaningPrim(p, leaf) && MeaningAnd(more, leaf)
  }

  predicate MeaningPrim(p: Primary, leaf: Leaf)
    requires ValidPrim(p)
  {
    match p
    case Apply(name, arglist) => leaf(FindFunc(name).value, ArgsOf(arglist, "", []))
    case Bang(q) => !MeaningPrim(q, leaf)
    case Paren(e) => MeaningOr(e, leaf)
  }

  ghost predicate OpenComplete(open: Option<Node>) {
    open.Some? ==> Complete(open.value)
  }

  /** The left-nested tree evaluates to the right-nested meaning. */
  lemma {:induction false} TreeOrMeans(e: OrExpr, open: Option<Node>, leaf: Leaf)
    requires ValidOr(e) && OpenComplete(open)
    ensures Complete(TreeOr(e, open))
    ensures Eval(TreeOr(e, open), leaf) == ((open.Some? && Eval(open.value, leaf)) || MeaningOr(e, leaf))
  {
    TreeAndMeans(e.a, None, leaf);
    if e.OrMore? {
      TreeOrMeans(e.more, Some(Attach(true, open, TreeAnd(e.a, None))), leaf);
    }
  }

  lemma {:induction false} TreeAndMeans(e: AndExpr, open: Option<Node>, leaf: Leaf)
    requires ValidAnd(e) && OpenComplete(open)
    ensures Complete(TreeAnd(e, open))
    ensures Eval(TreeAnd(e, open), leaf) == ((open.Some? ==> Eval(open.value, leaf)) && MeaningAnd(e, leaf))
  {
    TreePrimMeans(e.p, leaf);
    if e.AndMore? {
      TreeAndMeans(e.more, Some(Attach(false, open, TreePrim(e.p))), leaf);
    }
  }

  lemma {:induction false} TreePrimMeans(p: Primary, leaf: Leaf)
    requires ValidPrim(p)
    ensures Complete(TreePrim(p))
    ensures Eval(TreePrim(p), leaf) == MeaningPrim(p, leaf)
  {
    match p
    case Apply(_, _) =>
    case Bang(q) => TreePrimMeans(q, leaf);
    case Paren(e) => TreeOrMeans(e, None, leaf);
  }

  // ----- the token list a scanner state is about to deliver

  ghost predicate At(l: Lex, ts: Toks)
    decreases ts
  {
    l.Lex? &&
    match ts
    case Nil => l.tok == End
    case Cons(Sym(t), more) => t != End && t != Word && l.tok == t && At(GetToken(l.rest), more)
    case Cons(Wd(w), more) =>
      l.tok == Word && WordLen(l.rest, MAX_WORD) == |w| && l.rest[..|w|] == w && At(GetToken(l.rest[|w|..]), more)
  }

  ghost predicate Sentence(rule: string, e: OrExpr) {
    ValidOr(e) && At(GetToken(rule), ToksOr(e, Nil))
  }

  predicate StopsArgs(k: Toks) {
    k.Cons? && k.head.Sym? && k.head.tok != Comma
  }

  predicate StopsAnd(k: Toks) {
    k.Cons? ==> k.head != Sym(And)
  }

  predicate StopsOr(k: Toks) {
    k.Cons? ==> k.head != Sym(And) && k.head != Sym(Or)
  }

  // ----- sentences are accepted

  lemma {:induction false} ArgsAccepted(l: Lex, ts: Toks, curr: string, args: seq<string>, k: Toks)
    requires GoodLex(l) && WordsAndCommas(ts) && StopsArgs(k) && At(l, Append(ts, k))
    ensures var r := ParseArgs(l, curr, args); r.args == ArgsOf(ts, curr, args) && At(r.next, k)
    decreases ts
  {
    match ts
    case Nil =>
    case Cons(Wd(w), more) => ArgsAccepted(GetToken(l.rest[|w|..]), more, AddWord(curr, w), args, k);
    case Cons(Sym(_), more) => ArgsAccepted(GetToken(l.rest), more, "", CloseArg(args, curr), k);
  }

  lemma {:induction false} PrimAccepted(l: Lex, p: Primary, first: bool, k: Toks)
    requires GoodLex(l) && ValidPrim(p) && At(l, ToksPrim(p, k))
    ensures var r := ParsePrimary(l, first); r.err == NoErr && r.node == TreePrim(p) && r.node != Hole && At(r.next, k)
    decreases p
  {
    match p
    case Apply(name, arglist) =>
      var t := GetToken(l.rest[|name|..]);
      assert At(GetToken(t.rest), Append(arglist, Cons(Sym(CloseParen), k)));
      ArgsAccepted(GetToken(t.rest), arglist, "", [], Cons(Sym(CloseParen), k));
    case Bang(q) =>
      PrimAccepted(GetToken(l.rest), q, false, k);
    case Paren(e) =>
      OrAccepted(GetToken(l.rest), e, None, Cons(Sym(CloseParen), k));
  }

  lemma {:induction false} AndAccepted(l: Lex, e: AndExpr, open: Option<Node>, k: Toks)
    requires GoodLex(l) && ValidAnd(e) && StopsAnd(k) && At(l, ToksAnd(e, k))
    ensures var r := ParseAnd(l, open); r.err == NoErr && r.node == TreeAnd(e, open) && r.node != Hole && At(r.next, k)
    decreases e
  {
    match e
    case AndOne(p) =>
      PrimAccepted(l, p, true, k);
    case AndMore(p, more) =>
      PrimAccepted(l, p, true, Cons(Sym(And), ToksAnd(more, k)));
      var r := ParsePrimary(l, true);
      AndAccepted(GetToken(r.next.rest), more, Some(Attach(false, open, r.node)), k);
  }

  lemma {:induction false} OrAccepted(l: Lex, e: OrExpr, open: Option<Node>, k: Toks)
    requires GoodLex(l) && ValidOr(e) && StopsOr(k) && At(l, ToksOr(e, k))
    ensures var r := ParseOr(l, open); r.err == NoErr && r.node == TreeOr(e, open) && r.node != Hole && At(r.next, k)
    decreases e
  {
    match e
    case OrOne(a) =>
      AndAccepted(l, a, None, k);
    case OrMore(a, more) =>
      AndAccepted(l, a, None, Cons(Sym(Or), ToksOr(more, k)));
      var r := ParseAnd(l, None);
      OrAccepted(GetToken(r.next.rest), more, Some(Attach(true, open, r.node)), k);
  }

  // ----- what is accepted with no missing operand is a sentence

  lemma {:induction false} DeriveArgs(l: Lex, curr: string, args: seq<string>) returns (ts: Toks)
    requires GoodLex(l) && ParseArgs(l, curr, args).next.Lex?
    ensures var r := ParseArgs(l, curr, args);
            && WordsAndCommas(ts) && ArgsOf(ts, curr, args) == r.args
            && forall k :: At(r.next, k) ==> At(l, Append(ts, k))
    decreases Weight(l)
  {
    if l.tok == Word {
      var n := WordLen(l.rest, MAX_WORD);
      var more := DeriveArgs(GetToken(l.rest[n..]), AddWord(curr, l.rest[..n]), args);
      ts := Cons(Wd(l.rest[..n]), more);
    } else if l.tok == Comma {
      var more := DeriveArgs(GetToken(l.rest), "", CloseArg(args, curr));
      ts := Cons(Sym(Comma), more);
    } else {
      ts := Nil;
    }
  }

  lemma {:induction false} DerivePrim(l: Lex, first: bool) returns (p: Primary)
    requires GoodLex(l) && ParsePrimary(l, first).err == NoErr && Complete(ParsePrimary(l, first).node)
    ensures var r := ParsePrimary(l, first);
            ValidPrim(p) && TreePrim(p) == r.node && forall k :: At(r.next, k) ==> At(l, ToksPrim(p, k))
    decreases Weight(l), 0
  {
    var r := ParsePrimary(l, first);
    match l.tok {
      case OpenParen =>
        var t := GetToken(l.rest);
        var e := DeriveOr(t, None);
        p := Paren(e);
        var inner := ParseOr(t, None).next;
        forall k | At(r.next, k) ensures At(l, ToksPrim(p, k)) {
          assert At(inner, Cons(Sym(CloseParen), k));
        }
      case Not =>
        var q := DerivePrim(GetToken(l.rest), false);
        p := Bang(q);
      case Word =>
        var n := WordLen(l.rest, MAX_WORD);
        var t := GetToken(l.rest[n..]);
        var t1 := GetToken(t.rest);
        var arglist := DeriveArgs(t1, "", []);
        p := Apply(l.rest[..n], arglist);
        var inner := ParseArgs(t1, "", []).next;
        forall k | At(r.next, k) ensures At(l, ToksPrim(p, k)) {
          assert At(inner, Cons(Sym(CloseParen), k));
        }
      case _ => assert false;
    }
  }

  lemma {:induction false} DeriveAnd(l: Lex, open: Option<Node>) returns (e: AndExpr)
    requires GoodLex(l) && ParseAnd(l, open).err == NoErr && Complete(ParseAnd(l, open).node)
    ensures OpenComplete(open)
    ensures var r := ParseAnd(l, open);
            ValidAnd(e) && TreeAnd(e, open) == r.node && forall k :: At(r.next, k) ==> At(l, ToksAnd(e, k))
    decreases Weight(l), 1
  {
    var r := ParsePrimary(l, true);
    if r.next.tok == And {
      var left := Attach(false, open, r.node);
      var t := GetToken(r.next.rest);
      var more := DeriveAnd(t, Some(left));
      var p := DerivePrim(l, true);
      e := AndMore(p, more);
      forall k | At(ParseAnd(l, open).next, k) ensures At(l, ToksAnd(e, k)) {
        assert At(r.next, Cons(Sym(And), ToksAnd(more, k)));
      }
    } else {
      var p := DerivePrim(l, true);
      e := AndOne(p);
    }
  }

  lemma {:induction false} DeriveOr(l: Lex, open: Option<Node>) returns (e: OrExpr)
    requires GoodLex(l) && ParseOr(l, open).err == NoErr && Complete(ParseOr(l, open).node)
    ensures OpenComplete(open)
    ensures var r := ParseOr(l, open);
            ValidOr(e) && TreeOr(e, open) == r.node && forall k :: At(r.next, k) ==> At(l, ToksOr(e, k))
    decreases Weight(l), 2
  {
    var r := ParseAnd(l, None);
    if r.next.tok == Or {
      var left := Attach(true, open, r.node);
      var t := GetToken(r.next.rest);
      var more := DeriveOr(t, Some(left));
      var a := DeriveAnd(l, None);
      e := OrMore(a, more);
      forall k | At(ParseOr(l, open).next, k) ensures At(l, ToksOr(e, k)) {
        assert At(r.next, Cons(Sym(Or), ToksOr(more, k)));
      }
    } else {
      var a := DeriveAnd(l, None);
      e := OrOne(a);
    }
  }

  /** A text gets a tree with no missing operand exactly when it is a sentence, and then the sentence's own tree. */
  lemma AcceptsExactlyTheSentences(rule: string, n: Node)
    ensures Parse(rule) == Some(n) && Complete(n) <==> exists e :: Sentence(rule, e) && TreeOr(e, None) == n
  {
    var t := GetToken(rule);
    if Parse(rule) == Some(n) && Complete(n) {
      var e := DeriveOr(t, None);
      assert At(ParseOr(t, None).next, Nil);
      assert Sentence(rule, e);
    }
    forall e | Sentence(rule, e) && TreeOr(e, None) == n ensures Parse(rule) == Some(n) && Complete(n) {
      OrAccepted(t, e, None, Nil);
      TreeOrMeans(e, None, (_, _) => true);
    }
  }

  /** The tree of a sentence evaluates to what the documented grammar says, whatever the functions answer. */
  lemma ParsedRuleMeans(rule: string, e: OrExpr, leaf: Leaf)
    requires Sentence(rule, e)
    ensures Parse(rule).Some? && Complete(Parse(rule).value)
    ensures Eval(Parse(rule).value, leaf) == MeaningOr(e, leaf)
  {
    OrAccepted(GetToken(rule), e, None, Nil);
    TreeOrMeans(e, None, leaf);
  }

  // ----- rules with a missing operand: accepted, but not to be evaluated

  /** No "&&" or "||" stands where an operand should; operand: one is due now. */
  ghost predicate OperandsPresent(l: Lex, operand: bool)
    requires GoodLex(l)
    decreases Weight(l)
  {
    if l.tok == End then true
    else
      var rest := if l.tok == Word then l.rest[WordLen(l.rest, MAX_WORD)..] else l.rest;
      var t := GetToken(rest);
      && ((l.tok == And || l.tok == Or) ==> !operand)
      && (t.Lex? ==> OperandsPresent(t, l.tok != Word && l.tok != CloseParen && l.tok != Comma))
  }

  lemma {:induction false} ArgsHaveNoOperators(l: Lex, curr: string, args: seq<string>, operand: bool)
    requires GoodLex(l) && ParseArgs(l, curr, args).next.Lex? && ParseArgs(l, curr, args).next.tok == CloseParen
    ensures OperandsPresent(l, operand) == OperandsPresent(ParseArgs(l, curr, args).next, false)
    decreases Weight(l)
  {
    if l.tok == Word {
      var n := WordLen(l.rest, MAX_WORD);
      ArgsHaveNoOperators(GetToken(l.rest[n..]), AddWord(curr, l.rest[..n]), args, false);
    } else if l.tok == Comma {
      ArgsHaveNoOperators(GetToken(l.rest), "", CloseArg(args, curr), false);
    }
  }

  lemma {:induction false} PrimHoles(l: Lex, first: bool)
    requires GoodLex(l) && ParsePrimary(l, first).err == NoErr
    ensures var r := ParsePrimary(l, first);
            if r.node == Hole then r.next == l && l.tok != OpenParen && l.tok != Not && l.tok != Word
            else OperandsPresent(l, true) <==> Complete(r.node) && OperandsPresent(r.next, false)
    decreases Weight(l), 0
  {
    hide GetToken, WordLen, FindFunc;
    match l.tok {
      case OpenParen => OrHoles(GetToken(l.rest), None);
      case Not => PrimHoles(GetToken(l.rest), false);
      case Word =>
        var t := GetToken(l.rest[WordLen(l.rest, MAX_WORD)..]);
        ArgsHaveNoOperators(GetToken(t.rest), "", [], true);
      case _ =>
    }
  }

  lemma {:induction false} AndHoles(l: Lex, open: Option<Node>)
    requires GoodLex(l) && ParseAnd(l, open).err == NoErr
    ensures var r := ParseAnd(l, open);
            if r.node == Hole then open.None? && r.next == l && l.tok in {End, Or, CloseParen, Comma}
            else OpenComplete(open) && OperandsPresent(l, true) <==> Complete(r.node) && OperandsPresent(r.next, false)
    decreases Weight(l), 1
  {
    PrimHoles(l, true);
    var r := ParsePrimary(l, true);
    if r.next.tok == And {
      var t := GetToken(r.next.rest);
      assert t.Lex? ==> OperandsPresent(r.next, false) == OperandsPresent(t, true);
      var left := Attach(false, open, r.node);
      AndHoles(t, Some(left));
      assert Complete(left) <==> OpenComplete(open) && Complete(r.node);
      assert r.node == Hole ==> !OperandsPresent(l, true);
    }
  }

  lemma {:induction false} OrHoles(l: Lex, open: Option<Node>)
    requires GoodLex(l) && ParseOr(l, open).err == NoErr
    ensures var r := ParseOr(l, open);
            if r.node == Hole then open.None? && r.next == l && l.tok in {End, CloseParen, Comma}
            else OpenComplete(open) && OperandsPresent(l, true) <==> Complete(r.node) && OperandsPresent(r.next, false)
    decreases Weight(l), 2
  {
    AndHoles(l, None);
    var r := ParseAnd(l, None);
    if r.next.tok == Or {
      var t := GetToken(r.next.rest);
      assert t.Lex? ==> OperandsPresent(r.next, false) == OperandsPresent(t, true);
      var left := Attach(true, open, r.node);
      OrHoles(t, Some(left));
      assert Complete(left) <==> OpenComplete(open) && Complete(r.node);
      assert r.node == Hole ==> !OperandsPresent(l, true);
    }
  }

  /** A tree without missing operands is evaluated to its value, for every function. */
  lemma {:induction false} CompleteEvaluates(n: Node, leaf: Leaf)
    requires Complete(n)
    ensures EvalShort(n, leaf) == Some(Eval(n, leaf))
  {
    match n
    case Call(_, _) =>
    case Negate(x) => CompleteEvaluates(x, leaf);
    case AndOr(_, l, r) =>
      CompleteEvaluates(l, leaf);
      CompleteEvaluates(r, leaf);
  }

  lemma {:induction false} CompleteAnswers(n: Node, answers: seq<bool>)
    requires Complete(n)
    ensures EvalAsked(n, answers).0.Some?
  {
    match n
    case Call(_, _) =>
    case Negate(x) => CompleteAnswers(x, answers);
    case AndOr(_, l, r) =>
      CompleteAnswers(l, answers);
      CompleteAnswers(r, EvalAsked(l, answers).1);
  }

  /** Answers that give a complete tree the value v and are all used. */
  lemma {:induction false} AnswersFor(n: Node, v: bool) returns (answers: seq<bool>)
    requires Complete(n)
    ensures forall more :: EvalAsked(n, answers + more) == (Some(v), more)
  {
    match n {
      case Call(_, _) =>
        answers := [v];
        assert forall more :: ([v] + more)[1..] == more;
      case Negate(x) =>
        answers := AnswersFor(x, !v);
      case AndOr(isOr, l, r) =>
        var first := AnswersFor(l, if v == isOr then v else !isOr);
        if v == isOr {
          answers := first;
        } else {
          var second := AnswersFor(r, v);
          answers := first + second;
          assert forall more :: first + second + more == first + (second + more);
        }
    }
  }

  /** Answers with which the evaluation comes to a missing operand. */
  lemma {:induction false} AnswersToHole(n: Node) returns (answers: seq<bool>)
    requires !Complete(n)
    ensures EvalAsked(n, answers).0.None?
  {
    match n {
      case Hole => answers := [];
      case Aborted => answers := [];
      case Negate(x) => answers := AnswersToHole(x);
      case AndOr(isOr, l, r) =>
        if Complete(l) {
          var first := AnswersFor(l, !isOr);
          var second := AnswersToHole(r);
          answers := first + second;
        } else {
          answers := AnswersToHole(l);
        }
    }
  }

  /**
   An accepted rule can be evaluated whatever its calls answer, one by one, exactly when no operator follows the
   start, '(', '!' or another operator; and then evaluation gives the value of the tree.
   */
  lemma EvaluableIff(rule: string)
    requires Parse(rule).Some?
    ensures (forall answers :: EvalAsked(Parse(rule).value, answers).0.Some?) <==> OperandsPresent(GetToken(rule), true)
    ensures Complete(Parse(rule).value) <==> OperandsPresent(GetToken(rule), true)
    ensures Complete(Parse(rule).value) ==>
              forall leaf :: EvalShort(Parse(rule).value, leaf) == Some(Eval(Parse(rule).value, leaf))
  {
    OrHoles(GetToken(rule), None);
    var n := Parse(rule).value;
    if Complete(n) {
      forall answers {
        CompleteAnswers(n, answers);
      }
      forall leaf {
        CompleteEvaluates(n, leaf);
      }
    } else {
      var answers := AnswersToHole(n);
    }
  }

  /** The tokens of p && !p && && e: an operand is missing where the evaluation never comes. */
  function HiddenHole(p: Primary, e: AndExpr): Toks {
    ToksPrim(p, Cons(Sym(And), ToksPrim(Bang(p), Cons(Sym(And), Cons(Sym(And), ToksAnd(e, Nil))))))
  }

  lemma {:induction false} FalseStays(e: AndExpr, open: Node, leaf: Leaf)
    requires ValidAnd(e) && EvalShort(open, leaf) == Some(false)
    ensures EvalShort(TreeAnd(e, Some(open)), leaf) == Some(false)
  {
    if e.AndMore? {
      FalseStays(e.more, AndOr(false, open, TreePrim(e.p)), leaf);
    }
  }

  /** One conjunct more, in front of another '&&'. */
  lemma {:induction false} AndContinues(l: Lex, p: Primary, open: Option<Node>, k: Toks)
    requires GoodLex(l) && ValidPrim(p) && At(l, ToksPrim(p, Cons(Sym(And), k)))
    ensures var next := ParsePrimary(l, true).next;
            && next.Lex? && At(GetToken(next.rest), k)
            && ParseAnd(l, open) == ParseAnd(GetToken(next.rest), Some(Attach(false, open, TreePrim(p))))
  {
    PrimAccepted(l, p, true, Cons(Sym(And), k));
  }

  lemma {:induction false} HiddenHoleTree(l: Lex, p: Primary, e: AndExpr)
    requires GoodLex(l) && ValidPrim(p) && ValidAnd(e) && At(l, HiddenHole(p, e))
    ensures var both := AndOr(false, TreePrim(p), Negate(TreePrim(p)));
            var r := ParseOr(l, None);
            && r.err == NoErr && r.node == TreeAnd(e, Some(AndOr(false, both, Hole))) && r.node != Hole &&
              At(r.next, Nil)
  {
    var both := AndOr(false, TreePrim(p), Negate(TreePrim(p)));
    var last := Cons(Sym(And), ToksAnd(e, Nil));
    AndContinues(l, p, None, ToksPrim(Bang(p), Cons(Sym(And), last)));
    var t1 := GetToken(ParsePrimary(l, true).next.rest);
    AndContinues(t1, Bang(p), Some(TreePrim(p)), last);
    var t2 := GetToken(ParsePrimary(t1, true).next.rest);
    HoleInserted(t2, Some(both), e);
  }

  lemma {:induction false} HoleInserted(l: Lex, open: Option<Node>, e: AndExpr)
    requires GoodLex(l) && open.Some? && ValidAnd(e) && At(l, Cons(Sym(And), ToksAnd(e, Nil)))
    ensures var r := ParseAnd(l, open);
            && r.err == NoErr && r.node == TreeAnd(e, Some(AndOr(false, open.value, Hole))) && r.node != Hole
            && At(r.next, Nil)
  {
    assert ParsePrimary(l, true) == Parsed(NoErr, Hole, l);
    var left := Some(AndOr(false, open.value, Hole));
    AndAccepted(GetToken(l.rest), e, left, Nil);
    assert ParseAnd(l, open) == ParseAnd(GetToken(l.rest), left);
  }

  /** With the same answer for equal calls a rule may lack an operand and still be evaluated, always to false. */
  lemma {:induction false} HiddenHoleEvaluates(rule: string, p: Primary, e: AndExpr)
    requires ValidPrim(p) && ValidAnd(e) && At(GetToken(rule), HiddenHole(p, e))
    ensures Parse(rule).Some? && !Complete(Parse(rule).value)
    ensures forall leaf :: EvalShort(Parse(rule).value, leaf) == Some(false)
  {
    HiddenHoleTree(GetToken(rule), p, e);
    hide ParseOr, ValidPrim, ValidAnd, At;
    var both := AndOr(false, TreePrim(p), Negate(TreePrim(p)));
    HoleStays(e, AndOr(false, both, Hole));
    forall leaf ensures EvalShort(Parse(rule).value, leaf) == Some(false) {
      TreePrimMeans(p, leaf);
      CompleteEvaluates(TreePrim(p), leaf);
      Contradiction(TreePrim(p), leaf);
      FalseStays(e, AndOr(false, both, Hole), leaf);
    }
  }

  lemma {:induction false} Contradiction(n: Node, leaf: Leaf)
    requires EvalShort(n, leaf).Some?
    ensures EvalShort(AndOr(false, AndOr(false, n, Negate(n)), Hole), leaf) == Some(false)
  {
    assert EvalShort(Negate(n), leaf) == Some(!EvalShort(n, leaf).value);
    assert EvalShort(AndOr(false, n, Negate(n)), leaf) == Some(false);
  }

  lemma {:induction false} HoleStays(e: AndExpr, open: Node)
    requires ValidAnd(e) && !Complete(open)
    ensures !Complete(TreeAnd(e, Some(open)))
  {
    if e.AndMore? {
      HoleStays(e.more, AndOr(false, open, TreePrim(e.p)));
    }
  }

  /** A missing operand at the left end is always evaluated. */
  lemma {:induction false} NoneStaysAnd(e: AndExpr, open: Node, leaf: Leaf)
    requires ValidAnd(e) && EvalShort(open, leaf).None?
    ensures EvalShort(TreeAnd(e, Some(open)), leaf).None?
  {
    if e.AndMore? {
      NoneStaysAnd(e.more, AndOr(false, open, TreePrim(e.p)), leaf);
    }
  }

  lemma {:induction false} NoneStaysOr(e: OrExpr, open: Node, leaf: Leaf)
    requires ValidOr(e) && EvalShort(open, leaf).None?
    ensures EvalShort(TreeOr(e, Some(open)), leaf).None?
  {
    if e.OrMore? {
      NoneStaysOr(e.more, AndOr(true, open, TreeAnd(e.a, None)), leaf);
    }
  }

  lemma {:induction false} LeadingAnd(l: Lex, e: OrExpr, leaf: Leaf)
    requires GoodLex(l) && l.tok == And && ValidOr(e) && At(GetToken(l.rest), ToksOr(e, Nil))
    ensures var r := ParseOr(l, None);
            r.err == NoErr && r.node != Hole && At(r.next, Nil) && EvalShort(r.node, leaf).None?
  {
    var t := GetToken(l.rest);
    var r := ParseAnd(l, None);
    assert ParsePrimary(l, true) == Parsed(NoErr, Hole, l);
    assert t.Lex? && r == ParseAnd(t, Some(Hole));
    NoneStaysAnd(e.a, Hole, leaf);
    match e {
      case OrOne(a) =>
        AndAccepted(t, a, Some(Hole), Nil);
      case OrMore(a, more) =>
        AndAccepted(t, a, Some(Hole), Cons(Sym(Or), ToksOr(more, Nil)));
        OrAccepted(GetToken(r.next.rest), more, Some(r.node), Nil);
        NoneStaysOr(more, r.node, leaf);
    }
  }

  /**
   The parser does accept rules with a missing operand: any sentence behind a stray "&&", which is evaluated at
   once.
   */
  lemma {:induction false} MissingOperandAccepted(rule: string, e: OrExpr)
    requires Sentence(rule, e)
    ensures Parse("&&" + rule).Some? && !Complete(Parse("&&" + rule).value)
    ensures forall leaf :: EvalShort(Parse("&&" + rule).value, leaf).None?
  {
    var s := "&&" + rule;
    assert s[1..] == "&" + rule && s[1..][1..] == rule;
    assert GetToken(s) == GetToken(s[1..], '&') == Lex(And, rule);
    var any: Leaf := (_, _) => true;
    LeadingAnd(Lex(And, rule), e, any);
    if Complete(Parse(s).value) {
      CompleteEvaluates(Parse(s).value, any);
    }
    forall leaf ensures EvalShort(Parse(s).value, leaf).None? {
      LeadingAnd(Lex(And, rule), e, leaf);
    }
  }

  /**
   A rule that starts with a call stores the arguments of that call before it counts them: with more than three it
   stores behind their slots, and is refused. A rule that is only a call stores them right exactly if they are three
   at most.
   */
  lemma {:induction false} FirstCallFits(rule: string, name: string, arglist: Toks, k: Toks)
    requires FindFunc(name).Some? && WordsAndCommas(arglist) && StopsArgs(k)
    requires At(GetToken(rule), Cons(Wd(name), Cons(Sym(OpenParen), Append(arglist, k))))
    ensures |ArgsOf(arglist, "", [])| > MAX_ARGS ==> !RuleFits(rule) && Parse(rule).None?
    ensures k == Cons(Sym(CloseParen), Nil) ==> (RuleFits(rule) <==> |ArgsOf(arglist, "", [])| <= MAX_ARGS)
  {
    var l := GetToken(rule);
    CallStores(l, name, arglist, k);
    OrFitsFirst(l);
    hide *;
    assert RuleFits(rule) <==> OrFits(l) by {
      RuleFitsIs(rule);
    }
    if Parse(rule).Some? {
      AcceptedFits(rule);
    }
    if k == Cons(Sym(CloseParen), Nil) {
      CallEnds(l);
    }
  }

  lemma RuleFitsIs(rule: string)
    requires GetToken(rule).Lex?
    ensures RuleFits(rule) == OrFits(GetToken(rule))
  {
  }

  lemma {:induction false} OrFitsFirst(l: Lex)
    requires GoodLex(l) && l.tok == Word
    ensures OrFits(l) ==> FunctionFits(l)
  {
    assert AndFits(l) ==> PrimaryFits(l);
  }

  lemma {:induction false} CallStores(l: Lex, name: string, arglist: Toks, k: Toks)
    requires GoodLex(l) && FindFunc(name).Some? && WordsAndCommas(arglist) && StopsArgs(k)
    requires At(l, Cons(Wd(name), Cons(Sym(OpenParen), Append(arglist, k))))
    ensures l.tok == Word && (FunctionFits(l) <==> |ArgsOf(arglist, "", [])| <= MAX_ARGS)
    ensures ParseFunction(l).err == NoErr && k == Cons(Sym(CloseParen), Nil) ==> ParseFunction(l).next.tok == End
  {
    hide FindFunc, WordLen, GetToken;
    assert WordLen(l.rest, MAX_WORD) == |name| && l.rest[..|name|] == name;
    var t := GetToken(l.rest[|name|..]);
    assert At(t, Cons(Sym(OpenParen), Append(arglist, k)));
    var t1 := GetToken(t.rest);
    assert At(t1, Append(arglist, k));
    ArgsAccepted(t1, arglist, "", [], k);
  }

  lemma {:induction false} CallEnds(l: Lex)
    requires GoodLex(l) && l.tok == Word
    requires ParseFunction(l).err == NoErr ==> ParseFunction(l).next.tok == End
    ensures OrFits(l) <==> FunctionFits(l)
  {
    var r := ParsePrimary(l, true);
    assert r == ParseFunction(l);
    assert PrimaryFits(l) == FunctionFits(l);
    assert AndFits(l) == FunctionFits(l);
    assert ParseAnd(l, None) == EndChain(false, None, r);
  }
}
