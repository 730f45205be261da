/**
 Texts of connection rules: a sentence spelled with any blanks between its tokens, and the
 text print_tree writes for a parsed rule (ircd/crule.c).
 */
module CrulePrint {
  import opened Options
  import opened Sequences
  import opened CharAttr
  import opened CruleLexer
  import opened MaskCollapse
  import opened Crule
  import opened CruleGrammar

  /** A letter, among them []\\^ and {}|~, a digit, or one of *?.- */
  predicate InWord(c: char) {
    || 'A' <= c <= '^' || 'a' <= c <= '~' || '0' <= c <= '9'
    || c == '*' || c == '?' || c == '.' || c == '-'
  }

  /** A word in one piece; no digit begins one, and no '|', which is an operator there. */
  predicate ValidWord(w: string) {
    && 0 < |w| <= 79 && !('0' <= w[0] <= '9') && w[0] != '|'
    && forall i :: 0 <= i < |w| ==> InWord(w[i])
  }

  predicate Breaks(r: string) {
    r == "" || !InWord(r[0])
  }

  function SymText(t: Token): string {
    match t
    case And => "&&"
    case Or => "||"
    case Not => "!"
    case OpenParen => "("
    case CloseParen => ")"
    case Comma => ","
    case _ => ""
  }

  // ----- spelled sentences

  /** ts written out, gaps[i] before its i-th token, then the tail of the text. */
  function Spell(ts: Toks, gaps: seq<string>, tail: string): string {
    if ts.Nil? || gaps == [] then tail
    else gaps[0] + (if ts.head.Wd? then ts.head.word else SymText(ts.head.tok)) + Spell(ts.tail, gaps[1..], tail)
  }

  /** Gaps are blank, words are words and end where they should, and the tail ends the rule. */
  ghost predicate WellSpelled(ts: Toks, gaps: seq<string>, tail: string) {
    match ts
    case Nil => gaps == [] && GetToken(tail).Lex? && GetToken(tail).tok == End
    case Cons(x, more) =>
      && gaps != [] && (forall c :: c in gaps[0] ==> c == ' ' || c == '\t')
      && (x.Wd? ==> ValidWord(x.word) && Breaks(Spell(more, gaps[1..], tail)))
      && (x.Sym? ==> x.tok != End && x.tok != Word)
      && WellSpelled(more, gaps[1..], tail)
  }

  lemma SameChars()
    ensures forall c :: InWord(c) <==> WordChar(c)
    ensures forall c :: InWord(c) && !('0' <= c <= '9') ==> WordStart(c)
  {
  }

  lemma ScanWordText(w: string, r: string)
    requires ValidWord(w) && Breaks(r)
    ensures GetToken(w + r) == Lex(Word, w + r)
    ensures WordLen(w + r, MAX_WORD) == |w| && (w + r)[..|w|] == w && (w + r)[|w|..] == r
  {
    SameChars();
    hide WordChar, WordStart, InWord;
    WordLenUnique(w, r);
    hide WordLen;
    FirstOfWord(w + r);
  }

  lemma FirstOfWord(s: string)
    requires s != "" && WordStart(s[0]) && s[0] != '|'
    ensures GetToken(s) == Lex(Word, s)
  {
  }

  lemma ScanSymText(t: Token, r: string)
    requires t != End && t != Word
    ensures GetToken(SymText(t) + r) == Lex(t, r)
  {
    var s := SymText(t) + r;
    if t == And || t == Or {
      assert s[1..][1..] == r;
    } else {
      assert s[1..] == r;
    }
  }

  lemma BlankGap(gap: string, r: string)
    requires forall c :: c in gap ==> c == ' ' || c == '\t'
    ensures GetToken(gap + r) == GetToken(r)
  {
    hide GetToken;
    forall i | 0 <= i < |gap| ensures IsBlank(gap[i]) {
      assert gap[i] in gap;
    }
    SkipBlanks(gap, r);
  }

  lemma {:induction false} SpelledIsScanned(ts: Toks, gaps: seq<string>, tail: string)
    requires WellSpelled(ts, gaps, tail)
    ensures At(GetToken(Spell(ts, gaps, tail)), ts)
  {
    if ts.Cons? {
      var rest := Spell(ts.tail, gaps[1..], tail);
      var text := if ts.head.Wd? then ts.head.word else SymText(ts.head.tok);
      SpelledIsScanned(ts.tail, gaps[1..], tail);
      assert Spell(ts, gaps, tail) == gaps[0] + text + rest;
      Associate(gaps[0], text, rest);
      BlankGap(gaps[0], text + rest);
      hide GetToken, Spell, ValidWord, Breaks, SymText;
      if ts.head.Wd? {
        WordThen(text, rest, ts.tail);
      } else {
        SymThen(ts.head.tok, rest, ts.tail);
      }
    }
  }

  /** However it is spaced, a spelled sentence is accepted and evaluates to its meaning. */
  lemma SpelledRuleMeans(e: OrExpr, gaps: seq<string>, tail: string, leaf: Leaf)
    requires ValidOr(e) && WellSpelled(ToksOr(e, Nil), gaps, tail)
    ensures var r := Parse(Spell(ToksOr(e, Nil), gaps, tail));
            r.Some? && Complete(r.value) && Eval(r.value, leaf) == MeaningOr(e, leaf)
  {
    SpelledIsScanned(ToksOr(e, Nil), gaps, tail);
    ParsedRuleMeans(Spell(ToksOr(e, Nil), gaps, tail), e, leaf);
  }

  /** The documented arglist: words with commas between them. */
  function WordList(words: seq<string>): Toks {
    if words == [] then Nil
    else if |words| == 1 then Cons(Wd(words[0]), Nil)
    else Cons(Wd(words[0]), Cons(Sym(Comma), WordList(words[1..])))
  }

  lemma {:induction false} WordListArgs(words: seq<string>, args: seq<string>)
    requires forall w :: w in words ==> w != "" && Collapse(w) == w
    ensures WordsAndCommas(WordList(words)) && ArgsOf(WordList(words), "", args) == args + words
  {
    if words == [] {
      assert args + words == args;
    } else {
      assert words[0] in words && forall w :: w in words[1..] ==> w in words;
      WordListArgs(words[1..], args + [words[0]]);
      assert args + words == args + [words[0]] + words[1..];
    }
  }

  // ----- print_tree

  function JoinArgs(args: seq<string>): string {
    if args == [] then ""
    else if |args| == 1 then args[0]
    else args[0] + "," + JoinArgs(args[1..])
  }

  function PrintTree(n: Node): string
    requires Complete(n)
  {
    match n
    case Call(f, args) => FuncName(f) + "(" + JoinArgs(args) + ") "
    case Negate(x) => "!( " + PrintTree(x) + ") "
    case AndOr(isOr, l, r) => "( " + PrintTree(l) + (if isOr then "|| " else "&& ") + PrintTree(r) + ") "
  }

  function SpaceAt(arg: string): (i: nat)
    ensures i <= |arg| && (i < |arg| ==> arg[i] == ' ') && forall j :: 0 <= j < i ==> arg[j] != ' '
  {
    if arg == "" || arg[0] == ' ' then 0 else 1 + SpaceAt(arg[1..])
  }

  /** Words with one space between them. */
  predicate WordsOnly(arg: string) {
    var i := SpaceAt(arg);
    ValidWord(arg[..i]) && (i < |arg| ==> WordsOnly(arg[i + 1..]))
  }

  predicate ValidArg(arg: string) {
    WordsOnly(arg) && |arg| <= MAX_WORD && Collapse(arg) == arg
  }

  /** The trees the parser builds, but for a missing operand. */
  predicate WellFormed(n: Node) {
    match n
    case Call(f, args) => |args| == Arity(f) && forall a :: a in args ==> ValidArg(a)
    case Negate(x) => WellFormed(x)
    case AndOr(_, l, r) => WellFormed(l) && WellFormed(r)
    case _ => false
  }

  function WordToks(arg: string, k: Toks): Toks {
    var i := SpaceAt(arg);
    Cons(Wd(arg[..i]), if i < |arg| then WordToks(arg[i + 1..], k) else k)
  }

  function ArgToks(args: seq<string>, k: Toks): Toks {
    if args == [] then k
    else if |args| == 1 then WordToks(args[0], k)
    else WordToks(args[0], Cons(Sym(Comma), ArgToks(args[1..], k)))
  }

  /** The sentence that the printed form of a tree spells. */
  function Printed(n: Node): Primary
    requires Complete(n)
  {
    match n
    case Call(f, args) => Apply(FuncName(f), ArgToks(args, Nil))
    case Negate(x) => Bang(Paren(OrOne(AndOne(Printed(x)))))
    case AndOr(true, l, r) => Paren(OrMore(AndOne(Printed(l)), OrOne(AndOne(Printed(r)))))
    case AndOr(false, l, r) => Paren(OrOne(AndMore(Printed(l), AndOne(Printed(r)))))
  }

  lemma {:induction false} WordsRejoin(arg: string, curr: string, k: Toks, args: seq<string>)
    requires WordsOnly(arg) && |curr| + 1 + |arg| <= MAX_WORD + (if curr == "" then 1 else 0)
    ensures ArgsOf(WordToks(arg, k), curr, args) == ArgsOf(k, if curr == "" then arg else curr + " " + arg, args)
    ensures WordsAndCommas(k) ==> WordsAndCommas(WordToks(arg, k))
    decreases |arg|
  {
    hide ValidWord, Collapse;
    var i := SpaceAt(arg);
    if i < |arg| {
      var w, more := arg[..i], arg[i + 1..];
      CutInFront(arg, i, "");
      assert arg + "" == arg && more + "" == more;
      assert w != "" by {
        NotEmpty(w);
      }
      WordsRejoin(more, AddWord(curr, w), k, args);
      Associate(w, " ", more);
      Associate(curr + " ", w, " " + more);
      Associate(curr + " " + w, " ", more);
    } else {
      assert arg[..i] == arg;
    }
  }

  lemma NotEmpty(w: string)
    requires ValidWord(w)
    ensures w != ""
  {
  }

  lemma {:induction false} ArgsRejoin(args: seq<string>, done: seq<string>)
    requires forall a :: a in args ==> ValidArg(a)
    ensures WordsAndCommas(ArgToks(args, Nil)) && ArgsOf(ArgToks(args, Nil), "", done) == done + args
  {
    if args == [] {
      assert done + args == done;
    } else {
      assert args[0] in args && forall a :: a in args[1..] ==> a in args;
      ArgsRejoin(args[1..], done + [args[0]]);
      assert done + args == done + [args[0]] + args[1..];
      WordsRejoin(args[0], "", if |args| == 1 then Nil else Cons(Sym(Comma), ArgToks(args[1..], Nil)), done);
    }
  }

  lemma NamesAreFound(f: Func)
    ensures FindFunc(FuncName(f)) == Some(f) && ValidWord(FuncName(f))
  {
    assert Lower(FuncName(f)) == FuncName(f);
  }

  lemma {:induction false} PrintedTree(n: Node)
    requires WellFormed(n)
    ensures Complete(n) && ValidPrim(Printed(n)) && TreePrim(Printed(n)) == n
  {
    match n {
      case Call(f, args) =>
        NamesAreFound(f);
        ArgsRejoin(args, []);
      case Negate(x) =>
        PrintedTree(x);
        ParenOne(AndOne(Printed(x)));
      case AndOr(isOr, l, r) =>
        PrintedTree(l);
        PrintedTree(r);
        var a, b := AndOne(Printed(l)), AndOne(Printed(r));
        if isOr {
          ParenTwo(a, b);
        } else {
          var e := AndMore(Printed(l), b);
          assert TreeAnd(b, Some(TreePrim(Printed(l)))) == n;
          ParenOne(e);
        }
    }
  }

  lemma {:induction false} ParenTwo(a: AndExpr, b: AndExpr)
    requires ValidAnd(a) && ValidAnd(b)
    ensures var p := Paren(OrMore(a, OrOne(b)));
            ValidPrim(p) && TreePrim(p) == AndOr(true, TreeAnd(a, None), TreeAnd(b, None))
  {
    assert ValidOr(OrOne(b)) && ValidOr(OrMore(a, OrOne(b)));
    var left := TreeAnd(a, None);
    assert TreeOr(OrOne(b), Some(left)) == AndOr(true, left, TreeAnd(b, None));
    assert TreeOr(OrMore(a, OrOne(b)), None) == TreeOr(OrOne(b), Some(left));
  }

  lemma {:induction false} ParenOne(e: AndExpr)
    requires ValidAnd(e)
    ensures ValidPrim(Paren(OrOne(e))) && TreePrim(Paren(OrOne(e))) == TreeAnd(e, None)
  {
    assert TreeOr(OrOne(e), None) == TreeAnd(e, None);
  }

  lemma {:induction false} WordsScanned(arg: string, r: string, k: Toks)
    requires WordsOnly(arg) && Breaks(r) && At(GetToken(r), k)
    ensures At(GetToken(arg + r), WordToks(arg, k))
    decreases |arg|
  {
    hide GetToken, WordLen, ValidWord, At, Breaks;
    var i := SpaceAt(arg);
    CutInFront(arg, i, r);
    if i < |arg| {
      SpaceBreaks(arg[i..] + r);
      WordsScanned(arg[i + 1..], r, k);
      SkipBlanks(" ", arg[i + 1..] + r);
      WordThen(arg[..i], arg[i..] + r, WordToks(arg[i + 1..], k));
    } else {
      assert arg[i..] + r == r;
      WordThen(arg[..i], r, k);
    }
  }

  lemma SpaceBreaks(r: string)
    requires r != "" && r[0] == ' '
    ensures Breaks(r)
  {
  }

  lemma WordThen(w: string, rest: string, k: Toks)
    requires ValidWord(w) && Breaks(rest) && At(GetToken(rest), k)
    ensures At(GetToken(w + rest), Cons(Wd(w), k))
  {
    hide GetToken, WordLen, ValidWord, Breaks;
    ScanWordText(w, rest);
  }

  lemma SymThen(t: Token, rest: string, k: Toks)
    requires t != End && t != Word && At(GetToken(rest), k)
    ensures At(GetToken(SymText(t) + rest), Cons(Sym(t), k))
  {
    hide GetToken, SymText;
    ScanSymText(t, rest);
  }

  lemma CommaScanned(arg: string, rest: string, k: Toks)
    requires WordsOnly(arg) && At(GetToken(rest), k)
    ensures At(GetToken(arg + ("," + rest)), WordToks(arg, Cons(Sym(Comma), k)))
  {
    ScanSymText(Comma, rest);
    WordsScanned(arg, "," + rest, Cons(Sym(Comma), k));
  }

  lemma JoinedText(args: seq<string>, r: string)
    requires |args| > 1
    ensures JoinArgs(args) + r == args[0] + ("," + (JoinArgs(args[1..]) + r))
  {
    var comma, more := ",", JoinArgs(args[1..]);
    assert JoinArgs(args) == args[0] + comma + more;
    hide JoinArgs;
    Associate(args[0] + comma, more, r);
    Associate(args[0], comma, more + r);
  }

  lemma {:induction false} ArgsScanned(args: seq<string>, r: string, k: Toks)
    requires (forall a :: a in args ==> ValidArg(a)) && Breaks(r) && At(GetToken(r), k)
    ensures At(GetToken(JoinArgs(args) + r), ArgToks(args, k))
  {
    if args == [] {
      assert JoinArgs(args) + r == r;
    } else if |args| == 1 {
      assert args[0] in args;
      WordsScanned(args[0], r, k);
    } else {
      assert args[0] in args && forall a :: a in args[1..] ==> a in args;
      ArgsScanned(args[1..], r, k);
      CommaScanned(args[0], JoinArgs(args[1..]) + r, ArgToks(args[1..], k));
      JoinedText(args, r);
    }
  }

  lemma {:induction false} AppendArgs(args: seq<string>, k: Toks)
    ensures ArgToks(args, k) == Append(ArgToks(args, Nil), k)
  {
    if |args| == 1 {
      AppendWords(args[0], Nil, k);
    } else if |args| > 1 {
      AppendArgs(args[1..], k);
      AppendWords(args[0], Cons(Sym(Comma), ArgToks(args[1..], Nil)), k);
    }
  }

  lemma {:induction false} AppendWords(arg: string, j: Toks, k: Toks)
    ensures WordToks(arg, Append(j, k)) == Append(WordToks(arg, j), k)
    decreases |arg|
  {
    var i := SpaceAt(arg);
    if i < |arg| {
      AppendWords(arg[i + 1..], j, k);
    }
  }

  /** A blank behind a symbol, as print_tree writes it, is skipped. */
  lemma SymThenBlank(t: Token, r: string, k: Toks)
    requires t != End && t != Word && At(GetToken(r), k)
    ensures At(GetToken(SymText(t) + " " + r), Cons(Sym(t), k))
  {
    hide At, GetToken, SymText;
    Associate(SymText(t), " ", r);
    SkipBlanks(" ", r);
    SymThen(t, " " + r, k);
  }

  lemma {:induction false} PrintedScanned(n: Node, r: string, k: Toks)
    requires WellFormed(n) && Complete(n) && At(GetToken(r), k)
    ensures At(GetToken(PrintTree(n) + r), ToksPrim(Printed(n), k))
    decreases n
  {
    hide GetToken, PrintTree, Printed, ToksPrim;
    var r1, k1 := ") " + r, Cons(Sym(CloseParen), k);
    CloseScanned(r, k);
    match n {
      case Call(f, args) =>
        CallScanned(f, args, r1, k1);
        CallText(f, args, r, k);
      case Negate(x) =>
        PrintedScanned(x, r1, k1);
        NegateScanned(x, r, k);
      case AndOr(isOr, a, b) =>
        PrintedScanned(b, r1, k1);
        var r3 := OpText(isOr) + (PrintTree(b) + r1);
        OperatorScanned(isOr, PrintTree(b) + r1, ToksPrim(Printed(b), k1));
        PrintedScanned(a, r3, Cons(Sym(OpToken(isOr)), ToksPrim(Printed(b), k1)));
        AndOrScanned(isOr, a, b, r, k);
    }
  }

  lemma CloseScanned(r: string, k: Toks)
    requires At(GetToken(r), k)
    ensures Breaks(") " + r) && At(GetToken(") " + r), Cons(Sym(CloseParen), k))
  {
    hide At, GetToken;
    SymThenBlank(CloseParen, r, k);
    assert SymText(CloseParen) + " " + r == ") " + r;
  }

  lemma CallText(f: Func, args: seq<string>, r: string, k: Toks)
    ensures PrintTree(Call(f, args)) + r == FuncName(f) + ("(" + (JoinArgs(args) + (") " + r)))
    ensures ToksPrim(Printed(Call(f, args)), k)
            == Cons(Wd(FuncName(f)), Cons(Sym(OpenParen), ArgToks(args, Cons(Sym(CloseParen), k))))
  {
    AppendArgs(args, Cons(Sym(CloseParen), k));
    var name, open, text, close := FuncName(f), "(", JoinArgs(args), ") ";
    hide JoinArgs, FuncName, ArgToks;
    Associate(name + open, text, close);
    Associate(name + open, text + close, r);
    Associate(text, close, r);
    Associate(name, open, text + (close + r));
  }

  function OpText(isOr: bool): string {
    if isOr then "|| " else "&& "
  }

  function OpToken(isOr: bool): Token {
    if isOr then Or else And
  }

  lemma OpenScanned(r: string, k: Toks)
    requires At(GetToken(r), k)
    ensures At(GetToken("( " + r), Cons(Sym(OpenParen), k))
  {
    hide At, GetToken;
    SymThenBlank(OpenParen, r, k);
    assert SymText(OpenParen) + " " + r == "( " + r;
  }

  lemma OperatorScanned(isOr: bool, r: string, k: Toks)
    requires At(GetToken(r), k)
    ensures At(GetToken(OpText(isOr) + r), Cons(Sym(OpToken(isOr)), k))
  {
    hide At, GetToken;
    SymThenBlank(OpToken(isOr), r, k);
    assert SymText(OpToken(isOr)) + " " + r == OpText(isOr) + r;
  }

  lemma NegateScanned(x: Node, r: string, k: Toks)
    requires Complete(x) && At(GetToken(PrintTree(x) + (") " + r)), ToksPrim(Printed(x), Cons(Sym(CloseParen), k)))
    ensures At(GetToken(PrintTree(Negate(x)) + r), ToksPrim(Printed(Negate(x)), k))
  {
    hide GetToken;
    var inner, k1 := PrintTree(x) + (") " + r), ToksPrim(Printed(x), Cons(Sym(CloseParen), k));
    OpenScanned(inner, k1);
    ScanSymText(Not, "( " + inner);
    assert "!( " == "!" + "( ";
    Regroup("!", "( ", PrintTree(x), ") ", r);
    assert SymText(Not) == "!";
    NegateTokens(x, k);
  }

  lemma NegateTokens(x: Node, k: Toks)
    requires Complete(x)
    ensures ToksPrim(Printed(Negate(x)), k)
            == Cons(Sym(Not), Cons(Sym(OpenParen), ToksPrim(Printed(x), Cons(Sym(CloseParen), k))))
  {
    ParenTokens(AndOne(Printed(x)), k);
    assert ToksAnd(AndOne(Printed(x)), Cons(Sym(CloseParen), k)) == ToksPrim(Printed(x), Cons(Sym(CloseParen), k));
  }

  lemma Regroup(a: string, b: string, c: string, d: string, e: string)
    ensures (((a + b) + c) + d) + e == a + (b + (c + (d + e)))
  {
  }

  lemma ParenTokens(a: AndExpr, k: Toks)
    ensures ToksPrim(Paren(OrOne(a)), k) == Cons(Sym(OpenParen), ToksAnd(a, Cons(Sym(CloseParen), k)))
  {
    assert ToksOr(OrOne(a), Cons(Sym(CloseParen), k)) == ToksAnd(a, Cons(Sym(CloseParen), k));
  }

  /** The tokens of a printed operator node, read from the left. */
  function AndOrToks(isOr: bool, a: Node, b: Node, k: Toks): Toks
    requires Complete(a) && Complete(b)
  {
    ToksPrim(Printed(a), Cons(Sym(OpToken(isOr)), ToksPrim(Printed(b), Cons(Sym(CloseParen), k))))
  }

  lemma AndOrTokens(isOr: bool, a: Node, b: Node, k: Toks)
    requires Complete(a) && Complete(b)
    ensures ToksPrim(Printed(AndOr(isOr, a, b)), k) == Cons(Sym(OpenParen), AndOrToks(isOr, a, b, k))
  {
    var k1 := Cons(Sym(CloseParen), k);
    var y := AndOne(Printed(b));
    if isOr {
      assert ToksOr(OrOne(y), k1) == ToksAnd(y, k1) == ToksPrim(Printed(b), k1);
      var x := AndOne(Printed(a));
      assert ToksOr(OrMore(x, OrOne(y)), k1) == ToksAnd(x, Cons(Sym(Or), ToksPrim(Printed(b), k1)));
    } else {
      ParenTokens(AndMore(Printed(a), y), k);
      assert ToksAnd(y, k1) == ToksPrim(Printed(b), k1);
    }
  }

  lemma AndOrScanned(isOr: bool, a: Node, b: Node, r: string, k: Toks)
    requires Complete(a) && Complete(b)
    requires At(GetToken(PrintTree(a) + (OpText(isOr) + (PrintTree(b) + (") " + r)))), AndOrToks(isOr, a, b, k))
    ensures At(GetToken(PrintTree(AndOr(isOr, a, b)) + r), ToksPrim(Printed(AndOr(isOr, a, b)), k))
  {
    hide GetToken;
    AndOrText(isOr, a, b, r);
    OpenScanned(PrintTree(a) + (OpText(isOr) + (PrintTree(b) + (") " + r))), AndOrToks(isOr, a, b, k));
    AndOrTokens(isOr, a, b, k);
  }

  lemma AndOrText(isOr: bool, a: Node, b: Node, r: string)
    requires Complete(a) && Complete(b)
    ensures PrintTree(AndOr(isOr, a, b)) + r == "( " + (PrintTree(a) + (OpText(isOr) + (PrintTree(b) + (") " + r))))
  {
    var open, close, left, op, right := "( ", ") ", PrintTree(a), OpText(isOr), PrintTree(b);
    assert PrintTree(AndOr(isOr, a, b)) == open + left + op + right + close;
    hide PrintTree, OpText;
    Regroup(open + left, op, right, close, r);
    Associate(open, left, op + (right + (close + r)));
  }

  lemma CallScanned(f: Func, args: seq<string>, r: string, k: Toks)
    requires (forall a :: a in args ==> ValidArg(a)) && Breaks(r) && At(GetToken(r), k)
    ensures At(GetToken(FuncName(f) + ("(" + (JoinArgs(args) + r))),
            Cons(Wd(FuncName(f)), Cons(Sym(OpenParen), ArgToks(args, k))))
  {
    hide GetToken, WordLen, At, FuncName, ArgToks, JoinArgs;
    NamesAreFound(f);
    ArgsScanned(args, r, k);
    SymThen(OpenParen, JoinArgs(args) + r, ArgToks(args, k));
    WordThen(FuncName(f), "(" + (JoinArgs(args) + r), Cons(Sym(OpenParen), ArgToks(args, k)));
  }

  /** What print_tree writes parses back to the very same tree. */
  lemma PrintThenParse(n: Node)
    requires WellFormed(n)
    ensures Complete(n) && Parse(PrintTree(n)) == Some(n)
  {
    PrintedTree(n);
    PrintedScanned(n, "", Nil);
    assert PrintTree(n) + "" == PrintTree(n);
    PrimaryAlone(Printed(n), PrintTree(n));
  }

  // ----- the four functions

  lemma {:induction false} SqueezedNotEmpty(m: string, star: bool)
    requires m != "" || star
    ensures Squeeze(m, star) != ""
  {
    if m != "" && m[0] == '*' {
      SqueezedNotEmpty(m[1..], true);
    }
  }

  lemma CollapsedNotEmpty(m: string)
    requires m != ""
    ensures Collapse(m) != ""
  {
    if StarRun(m) {
      SqueezedNotEmpty(m, false);
    }
  }

  lemma {:induction false} CallAccepted(f: Func, name: string, arglist: Toks, text: string)
    requires FindFunc(name) == Some(f) && WordsAndCommas(arglist) && |ArgsOf(arglist, "", [])| == Arity(f)
    requires At(GetToken(text), Cons(Wd(name), Cons(Sym(OpenParen), Append(arglist, Cons(Sym(CloseParen), Nil)))))
    ensures Parse(text) == Some(Call(f, ArgsOf(arglist, "", [])))
  {
    hide GetToken, Arity, FindFunc, ArgsOf, WordsAndCommas, Append;
    var p := Apply(name, arglist);
    assert ValidPrim(p) && TreePrim(p) == Call(f, ArgsOf(arglist, "", []));
    assert ToksPrim(p, Nil) == Cons(Wd(name), Cons(Sym(OpenParen), Append(arglist, Cons(Sym(CloseParen), Nil))));
    PrimaryAlone(p, text);
  }

  /** A rule that is one primary. */
  lemma PrimaryAlone(p: Primary, text: string)
    requires ValidPrim(p) && At(GetToken(text), ToksPrim(p, Nil))
    ensures Parse(text) == Some(TreePrim(p))
  {
    hide GetToken, TreePrim, ValidPrim, ToksPrim;
    var a := AndOne(p);
    var e := OrOne(a);
    assert ToksAnd(a, Nil) == ToksPrim(p, Nil);
    assert ToksOr(e, Nil) == ToksAnd(a, Nil);
    assert ValidAnd(a) && TreeAnd(a, None) == TreePrim(p);
    assert ValidOr(e) && TreeOr(e, None) == TreeAnd(a, None);
    OrAccepted(GetToken(text), e, None, Nil);
  }

  /** name(args): the name and the brackets around scanned arguments. */
  lemma CallOpened(name: string, args: string, ts: Toks)
    requires ValidWord(name) && At(GetToken(args + ")"), ts)
    ensures At(GetToken(name + "(" + args + ")"), Cons(Wd(name), Cons(Sym(OpenParen), ts)))
  {
    hide GetToken, At;
    SymThen(OpenParen, args + ")", ts);
    Associate(name, "(", args + ")");
    Associate(name + "(", args, ")");
    hide ValidWord;
    WordThen(name, "(" + (args + ")"), Cons(Sym(OpenParen), ts));
  }

  lemma ClosingScanned()
    ensures At(GetToken(")"), Cons(Sym(CloseParen), Nil)) && Breaks(")")
  {
    assert ")"[1..] == "";
  }

  lemma OneWord(w: string)
    requires w != ""
    ensures ArgsOf(Cons(Wd(w), Nil), "", []) == [Collapse(w)]
    ensures Append(Cons(Wd(w), Nil), Cons(Sym(CloseParen), Nil)) == Cons(Wd(w), Cons(Sym(CloseParen), Nil))
  {
    hide Collapse;
    CollapsedNotEmpty(w);
    assert ArgsOf(Nil, w, []) == [Collapse(w)];
  }

  lemma TwoWords(w: string, u: string)
    requires w != "" && u != ""
    ensures WordsAndCommas(Cons(Wd(w), Cons(Sym(Comma), Cons(Wd(u), Nil))))
    ensures ArgsOf(Cons(Wd(w), Cons(Sym(Comma), Cons(Wd(u), Nil))), "", []) == [Collapse(w), Collapse(u)]
    ensures Append(Cons(Wd(w), Cons(Sym(Comma), Cons(Wd(u), Nil))), Cons(Sym(CloseParen), Nil))
            == Cons(Wd(w), Cons(Sym(Comma), Cons(Wd(u), Cons(Sym(CloseParen), Nil))))
  {
    hide Collapse;
    CollapsedNotEmpty(w);
    CollapsedNotEmpty(u);
    OneWord(u);
    assert WordsAndCommas(Cons(Wd(u), Nil));
    var done := CloseArg([], w);
    assert ArgsOf(Nil, u, done) == done + [Collapse(u)];
    assert ArgsOf(Cons(Wd(u), Nil), "", done) == ArgsOf(Nil, u, done);
    assert ArgsOf(Cons(Sym(Comma), Cons(Wd(u), Nil)), w, []) == ArgsOf(Cons(Wd(u), Nil), "", done);
  }

  lemma {:induction false} OneArgument(f: Func, name: string, w: string)
    requires ValidWord(w) && ValidWord(name) && FindFunc(name) == Some(f) && Arity(f) == 1
    ensures Parse(name + "(" + w + ")") == Some(Call(f, [Collapse(w)]))
  {
    hide GetToken, FindFunc, At, ArgsOf, Append, Collapse, Arity;
    ClosingScanned();
    WordThen(w, ")", Cons(Sym(CloseParen), Nil));
    OneWord(w);
    CallOpened(name, w, Cons(Wd(w), Cons(Sym(CloseParen), Nil)));
    hide ValidWord, Parse;
    CallAccepted(f, name, Cons(Wd(w), Nil), name + "(" + w + ")");
  }

  lemma {:induction false} TwoArguments(f: Func, name: string, w: string, u: string)
    requires ValidWord(w) && ValidWord(u) && ValidWord(name) && FindFunc(name) == Some(f) && Arity(f) == 2
    ensures Parse(name + "(" + (w + "," + u) + ")") == Some(Call(f, [Collapse(w), Collapse(u)]))
  {
    hide GetToken, FindFunc, At, ArgsOf, Append, Collapse, Arity, Breaks, SymText, WordsAndCommas;
    var last := Cons(Wd(u), Cons(Sym(CloseParen), Nil));
    ClosingScanned();
    WordThen(u, ")", Cons(Sym(CloseParen), Nil));
    CommaThen(w, u + ")", last);
    assert w + ("," + (u + ")")) == (w + "," + u) + ")";
    TwoWords(w, u);
    CallOpened(name, w + "," + u, Cons(Wd(w), Cons(Sym(Comma), last)));
    hide ValidWord, Parse;
    CallAccepted(f, name, Cons(Wd(w), Cons(Sym(Comma), Cons(Wd(u), Nil))), name + "(" + (w + "," + u) + ")");
  }

  lemma CommaThen(w: string, rest: string, k: Toks)
    requires ValidWord(w) && At(GetToken(rest), k)
    ensures At(GetToken(w + ("," + rest)), Cons(Wd(w), Cons(Sym(Comma), k)))
  {
    hide GetToken, At, ValidWord;
    SymThen(Comma, rest, k);
    WordThen(w, "," + rest, Cons(Sym(Comma), k));
  }

  lemma {:induction false} NoArgument(f: Func, name: string)
    requires ValidWord(name) && FindFunc(name) == Some(f) && Arity(f) == 0
    ensures Parse(name + "(" + "" + ")") == Some(Call(f, []))
  {
    hide GetToken, FindFunc, At, Arity, Collapse, ArgsOf, Append;
    ClosingScanned();
    assert "" + ")" == ")";
    CallOpened(name, "", Cons(Sym(CloseParen), Nil));
    NoWord();
    hide ValidWord, Parse;
    CallAccepted(f, name, Nil, name + "(" + "" + ")");
  }

  lemma NoWord()
    ensures ArgsOf(Nil, "", []) == [] && Append(Nil, Cons(Sym(CloseParen), Nil)) == Cons(Sym(CloseParen), Nil)
  {
  }

  /** A name in upper or lower case is a word. */
  lemma NameIsWord(name: string, f: Func)
    requires Lower(name) == FuncName(f)
    ensures ValidWord(name)
  {
    NamesAreFound(f);
    forall i | 0 <= i < |name| ensures InWord(name[i]) && !('0' <= name[i] <= '9') && name[i] != '|' {
      assert Lower(name)[i] == ToLower(name[i]) && 'a' <= FuncName(f)[i] <= 'z';
    }
  }

  /** The functions of the table, each with the number of words it takes, in upper or lower case. */
  lemma FourFunctions(connected: string, directcon: string, via: string, directop: string, w: string, u: string)
    requires Lower(connected) == "connected" && Lower(directcon) == "directcon"
    requires Lower(via) == "via" && Lower(directop) == "directop"
    requires ValidWord(w) && ValidWord(u)
    ensures Parse(connected + "(" + w + ")") == Some(Call(Connected, [Collapse(w)]))
    ensures Parse(directcon + "(" + w + ")") == Some(Call(DirectCon, [Collapse(w)]))
    ensures Parse(via + "(" + (w + "," + u) + ")") == Some(Call(Via, [Collapse(w), Collapse(u)]))
    ensures Parse(directop + "(" + "" + ")") == Some(Call(DirectOp, []))
  {
    hide Parse, Collapse, ValidWord, Lower;
    NameIsWord(connected, Connected);
    NameIsWord(directcon, DirectCon);
    NameIsWord(via, Via);
    NameIsWord(directop, DirectOp);
    OneArgument(Connected, connected, w);
    OneArgument(DirectCon, directcon, w);
    TwoArguments(Via, via, w, u);
    NoArgument(DirectOp, directop);
  }

  /** A rule that begins with any other word is refused. */
  lemma OtherNamesRefused(name: string, rest: string)
    requires ValidWord(name) && Breaks(rest)
    requires Lower(name) != "connected" && Lower(name) != "directcon"
    requires Lower(name) != "via" && Lower(name) != "directop"
    ensures Parse(name + rest).None?
  {
    hide ValidWord, Breaks;
    ScanWordText(name, rest);
    hide GetToken, WordLen, Lower;
    var l := GetToken(name + rest);
    assert FindFunc(name).None?;
    assert ParseFunction(l).err != NoErr;
    hide ParseFunction, FindFunc;
    assert ParsePrimary(l, true).err != NoErr;
    hide ParsePrimary;
    assert ParseAnd(l, None).err != NoErr;
    hide ParseAnd;
    assert ParseOr(l, None).err != NoErr;
  }
}
