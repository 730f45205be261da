/**
 The connection-rule parser and evaluator (ircd/crule.c): the parser as functions of the
 text, and the parser as the source writes it, loops over one shared cursor.
 */
module Crule {
  import opened Options
  import opened Sequences
  import opened CharAttr
  import opened CruleLexer
  import opened MaskCollapse

  datatype Func = Connected | DirectCon | Via | DirectOp

  /** Hole is a NULL child; Aborted a call node given up while its arguments were read. */
  datatype Node =
    | Hole
    | Aborted
    | Call(fn: Func, args: seq<string>)
    | Negate(arg: Node)
    | AndOr(isOr: bool, left: Node, right: Node)

  datatype ErrCode =
    NoErr | UnexpctTok | UnknwTok | ExpctAnd | ExpctOr | ExpctPrim | ExpctOpen | ExpctClose | UnknwFunc | ArgMismat

  const FUNC_LIST: seq<Func> := [Connected, DirectCon, Via, DirectOp]

  function FuncName(f: Func): string {
    match f
    case Connected => "connected"
    case DirectCon => "directcon"
    case Via => "via"
    case DirectOp => "directop"
  }

  function Arity(f: Func): nat {
    match f
    case Connected => 1
    case DirectCon => 1
    case Via => 2
    case DirectOp => 0
  }

  /** The function table is searched without regard to case. */
  function FindFunc(name: string): Option<Func> {
    var n := Lower(name);
    if n == "connected" then Some(Connected)
    else if n == "directcon" then Some(DirectCon)
    else if n == "via" then Some(Via)
    else if n == "directop" then Some(DirectOp)
    else None
  }

  /** No operand is missing: the trees that crule_eval may be given. */
  predicate Complete(n: Node) {
    match n
    case Hole => false
    case Aborted => false
    case Call(_, _) => true
    case Negate(x) => Complete(x)
    case AndOr(_, l, r) => Complete(l) && Complete(r)
  }

  type Leaf = (Func, seq<string>) -> bool

  function Eval(n: Node, leaf: Leaf): bool
    requires Complete(n)
  {
    match n
    case Call(f, args) => leaf(f, args)
    case Negate(x) => !Eval(x, leaf)
    case AndOr(isOr, l, r) => if isOr then Eval(l, leaf) || Eval(r, leaf) else Eval(l, leaf) && Eval(r, leaf)
  }

  /**
   Evaluation as the source runs it: from the left, and no further than needed; None where it would call a NULL
   child.
   */
  function EvalShort(n: Node, leaf: Leaf): Option<bool> {
    match n
    case Hole => None
    case Aborted => None
    case Call(f, args) => Some(leaf(f, args))
    case Negate(x) => var v := EvalShort(x, leaf); if v.None? then None else Some(!v.value)
    case AndOr(isOr, l, r) =>
      var v := EvalShort(l, leaf);
      if v.None? || v.value == isOr then v else EvalShort(r, leaf)
  }

  /** The same with an answer of its own for each call made, in turn; a call behind the last answer is false. */
  function EvalAsked(n: Node, answers: seq<bool>): (Option<bool>, seq<bool>) {
    match n
    case Hole => (None, answers)
    case Aborted => (None, answers)
    case Call(_, _) => if answers == [] then (Some(false), []) else (Some(answers[0]), answers[1..])
    case Negate(x) =>
      var v := EvalAsked(x, answers);
      (if v.0.None? then None else Some(!v.0.value), v.1)
    case AndOr(isOr, l, r) =>
      var v := EvalAsked(l, answers);
      if v.0.None? || v.0.value == isOr then v else EvalAsked(r, v.1)
  }

  // ----- the parser as functions

  /** What a parse function leaves behind: error code, node built, and the scanner (on success). */
  datatype Parsed = Parsed(err: ErrCode, node: Node, next: Lex)

  datatype ArgList = ArgList(args: seq<string>, next: Lex)

  ghost predicate Within(r: Parsed, l: Lex)
    requires l.Lex?
  {
    r.err == NoErr ==> GoodLex(r.next) && Weight(r.next) <= Weight(l)
  }

  /** A further word of an argument, dropped when the argument would reach CR_MAXARGLEN - 1. */
  function AddWord(curr: string, w: string): string {
    if curr == "" then w
    else if |curr| + |w| < MAX_WORD then curr + " " + w
    else curr
  }

  function CloseArg(args: seq<string>, curr: string): seq<string> {
    if Collapse(curr) == "" then args else args + [Collapse(curr)]
  }

  function ParseArgs(l: Lex, curr: string, args: seq<string>): (r: ArgList)
    requires GoodLex(l)
    ensures r.next.Lex? ==> GoodLex(r.next) && Weight(r.next) <= Weight(l)
    decreases Weight(l)
  {
    if l.tok == Word then
      var n := WordLen(l.rest, MAX_WORD);
      var t := GetToken(l.rest[n..]);
      if t.LexErr? then ArgList(args, LexErr) else ParseArgs(t, AddWord(curr, l.rest[..n]), args)
    else if l.tok == Comma then
      var t := GetToken(l.rest);
      if t.LexErr? then ArgList(CloseArg(args, curr), LexErr) else ParseArgs(t, "", CloseArg(args, curr))
    else ArgList(CloseArg(args, curr), l)
  }

  function ParseFunction(l: Lex): (r: Parsed)
    requires GoodLex(l) && l.tok == Word
    ensures Within(r, l)
  {
    var n := WordLen(l.rest, MAX_WORD);
    var name := l.rest[..n];
    var t := GetToken(l.rest[n..]);
    if t.LexErr? then Parsed(UnknwTok, Hole, LexErr)
    else if t.tok != OpenParen then Parsed(ExpctOpen, Hole, t)
    else
      var f := FindFunc(name);
      if f.None? then Parsed(UnknwFunc, Hole, t)
      else
        var t1 := GetToken(t.rest);
        if t1.LexErr? then Parsed(UnknwTok, Hole, LexErr)
        else
          var a := ParseArgs(t1, "", []);
          if a.next.LexErr? then Parsed(UnknwTok, Aborted, LexErr)
          else if a.next.tok != CloseParen then Parsed(ExpctClose, Aborted, a.next)
          else if Arity(f.value) != |a.args| then Parsed(ArgMismat, Aborted, a.next)
          else
            var t2 := GetToken(a.next.rest);
            if t2.LexErr? then Parsed(UnknwTok, Aborted, LexErr)
            else Parsed(NoErr, Call(f.value, a.args), t2)
  }

  /** first: no '!' has been read for this primary yet. */
  function ParsePrimary(l: Lex, first: bool): (r: Parsed)
    requires GoodLex(l)
    ensures Within(r, l)
    decreases Weight(l), 0
  {
    match l.tok
    case OpenParen =>
      var t := GetToken(l.rest);
      if t.LexErr? then Parsed(UnknwTok, Hole, LexErr)
      else
        var r := ParseOr(t, None);
        if r.err != NoErr then r
        else if r.node == Hole then Parsed(ExpctAnd, Hole, r.next)
        else if r.next.tok != CloseParen then Parsed(ExpctClose, r.node, r.next)
        else
          var t1 := GetToken(r.next.rest);
          Parsed(if t1.LexErr? then UnknwTok else NoErr, r.node, t1)
    case Not =>
      var t := GetToken(l.rest);
      if t.LexErr? then Parsed(UnknwTok, Negate(Hole), LexErr)
      else
        var r := ParsePrimary(t, false);
        Parsed(r.err, Negate(r.node), r.next)
    case Word => ParseFunction(l)
    case _ => Parsed(if first then NoErr else ExpctPrim, Hole, l)
  }

  /** An operator node whose right child is still open, closed with the operand n. */
  function Attach(isOr: bool, open: Option<Node>, n: Node): Node {
    if open.None? then n else AndOr(isOr, open.value, n)
  }

  /** The end of a chain: an operator without its right operand is an error. */
  function EndChain(isOr: bool, open: Option<Node>, r: Parsed): Parsed {
    if open.Some? && r.node == Hole then
      Parsed(if isOr then ExpctAnd else ExpctPrim, AndOr(isOr, open.value, Hole), r.next)
    else Parsed(r.err, Attach(isOr, open, r.node), r.next)
  }

  function ParseAnd(l: Lex, open: Option<Node>): (r: Parsed)
    requires GoodLex(l)
    ensures Within(r, l)
    decreases Weight(l), 1
  {
    var r := ParsePrimary(l, true);
    if r.err == NoErr && r.next.tok == And then
      var left := Attach(false, open, r.node);
      var t := GetToken(r.next.rest);
      if t.LexErr? then Parsed(UnknwTok, AndOr(false, left, Hole), LexErr) else ParseAnd(t, Some(left))
    else EndChain(false, open, r)
  }

  function ParseOr(l: Lex, open: Option<Node>): (r: Parsed)
    requires GoodLex(l)
    ensures Within(r, l)
    decreases Weight(l), 2
  {
    var r := ParseAnd(l, None);
    if r.err == NoErr && r.next.tok == Or then
      var left := Attach(true, open, r.node);
      var t := GetToken(r.next.rest);
      if t.LexErr? then Parsed(UnknwTok, AndOr(true, left, Hole), LexErr) else ParseOr(t, Some(left))
    else EndChain(true, open, r)
  }

  /** crule_parse: the tree, or None where the source returns NULL. */
  function Parse(rule: string): Option<Node> {
    var t := GetToken(rule);
    if t.LexErr? then None
    else
      var r := ParseOr(t, None);
      if r.err == NoErr && r.node != Hole && r.next.tok == End then Some(r.node) else None
  }

  // ----- the room for arguments

  /** CR_MAXARGS: the slots of a node. */
  const MAX_ARGS := 3

  /** The arguments of this function fit the slots of its node; they are stored before they are counted. */
  predicate FunctionFits(l: Lex)
    requires GoodLex(l) && l.tok == Word
  {
    var n := WordLen(l.rest, MAX_WORD);
    var t := GetToken(l.rest[n..]);
    if t.LexErr? || t.tok != OpenParen || FindFunc(l.rest[..n]).None? then true
    else
      var t1 := GetToken(t.rest);
      t1.Lex? ==> |ParseArgs(t1, "", []).args| <= MAX_ARGS
  }

  /** So do those of all functions that are read for a primary, a conjunction or a disjunction. */
  predicate PrimaryFits(l: Lex)
    requires GoodLex(l)
    decreases Weight(l), 0
  {
    match l.tok
    case OpenParen =>
      var t := GetToken(l.rest);
      t.Lex? ==> OrFits(t)
    case Not =>
      var t := GetToken(l.rest);
      t.Lex? ==> PrimaryFits(t)
    case Word => FunctionFits(l)
    case _ => true
  }

  predicate AndFits(l: Lex)
    requires GoodLex(l)
    decreases Weight(l), 1
  {
    var r := ParsePrimary(l, true);
    PrimaryFits(l) &&
    if r.err == NoErr && r.next.tok == And then
      var t := GetToken(r.next.rest);
      t.Lex? ==> AndFits(t)
    else true
  }

  predicate OrFits(l: Lex)
    requires GoodLex(l)
    decreases Weight(l), 2
  {
    var r := ParseAnd(l, None);
    AndFits(l) &&
    if r.err == NoErr && r.next.tok == Or then
      var t := GetToken(r.next.rest);
      t.Lex? ==> OrFits(t)
    else true
  }

  predicate RuleFits(rule: string) {
    var t := GetToken(rule);
    t.Lex? ==> OrFits(t)
  }

  lemma {:induction false} PrimaryWithin(l: Lex, first: bool)
    requires GoodLex(l) && ParsePrimary(l, first).err == NoErr
    ensures PrimaryFits(l)
    decreases Weight(l), 0
  {
    match l.tok {
      case OpenParen => OrWithin(GetToken(l.rest), None);
      case Not => PrimaryWithin(GetToken(l.rest), false);
      case _ =>
    }
  }

  lemma {:induction false} AndWithin(l: Lex, open: Option<Node>)
    requires GoodLex(l) && ParseAnd(l, open).err == NoErr
    ensures AndFits(l)
    decreases Weight(l), 1
  {
    var r := ParsePrimary(l, true);
    PrimaryWithin(l, true);
    if r.next.tok == And {
      AndWithin(GetToken(r.next.rest), Some(Attach(false, open, r.node)));
    }
  }

  lemma {:induction false} OrWithin(l: Lex, open: Option<Node>)
    requires GoodLex(l) && ParseOr(l, open).err == NoErr
    ensures OrFits(l)
    decreases Weight(l), 2
  {
    var r := ParseAnd(l, None);
    AndWithin(l, None);
    if r.next.tok == Or {
      OrWithin(GetToken(r.next.rest), Some(Attach(true, open, r.node)));
    }
  }

  /** A rule that is accepted has stored all arguments within their slots: only rules that are refused do not. */
  lemma AcceptedFits(rule: string)
    requires Parse(rule).Some?
    ensures RuleFits(rule)
  {
    OrWithin(GetToken(rule), None);
  }

  // ----- the parser as the source runs it

  class Parser {
    var nextTok: Token
    var ruleptr: string
    ghost var fits: bool  // every argument so far was stored in a slot of its node

    ghost function Now(): Lex
      reads this
    {
      Lex(nextTok, ruleptr)
    }

    constructor (rule: string)
      ensures ruleptr == rule && fits
    {
      nextTok := End;
      ruleptr := rule;
      fits := true;
    }

    method ScanToken() returns (ok: bool)
      modifies this`nextTok, this`ruleptr
      ensures ok <==> GetToken(old(ruleptr)).Lex?
      ensures ok ==> Now() == GetToken(old(ruleptr))
    {
      var pending := '\0';
      while true
        invariant GetToken(ruleptr, pending) == GetToken(old(ruleptr))
        decreases |ruleptr|
      {
        var c := Peek(ruleptr);
        if c == '\0' {
          nextTok := End;
          return true;
        }
        ruleptr := ruleptr[1..];
        match c {
          case ' ' =>
          case '\t' =>
          case '&' =>
            if pending == '\0' {
              pending := '&';
            } else if pending == '&' {
              nextTok := And;
              return true;
            } else {
              return false;
            }
          case '|' =>
            if pending == '\0' {
              pending := '|';
            } else if pending == '|' {
              nextTok := Or;
              return true;
            } else {
              return false;
            }
          case '!' =>
            nextTok := Not;
            return true;
          case '(' =>
            nextTok := OpenParen;
            return true;
          case ')' =>
            nextTok := CloseParen;
            return true;
          case ',' =>
            nextTok := Comma;
            return true;
          case ':' =>
            nextTok := End;
            return true;
          case _ =>
            ruleptr := [c] + ruleptr;
            if !WordStart(c) {
              return false;
            }
            nextTok := Word;
            return true;
        }
      }
    }

    method ScanWord() returns (word: string)
      modifies this`ruleptr
      ensures var n := WordLen(old(ruleptr), MAX_WORD);
              word == old(ruleptr)[..n] && ruleptr == old(ruleptr)[n..]
    {
      word := "";
      while |word| < MAX_WORD && WordChar(Peek(ruleptr))
        invariant |word| <= MAX_WORD && old(ruleptr) == word + ruleptr
        invariant WordLen(old(ruleptr), MAX_WORD) == |word| + WordLen(ruleptr, MAX_WORD - |word|)
        decreases |ruleptr|
      {
        MoveOne(word, ruleptr);
        word, ruleptr := word + [ruleptr[0]], ruleptr[1..];
      }
    }

    method ParseArgList() returns (ok: bool, args: seq<string>)
      requires GoodLex(Now())
      modifies this
      ensures var r := ParseArgs(old(Now()), "", []);
              && args == r.args && (ok <==> r.next.Lex?) && (ok ==> Now() == r.next)
              && fits == (old(fits) && |r.args| <= MAX_ARGS)
    {
      var curr, arglen := "", 0;
      args := [];
      ok := true;
      while ok
        invariant ok ==> GoodLex(Now())
        invariant curr != "" ==> arglen == |curr|
        invariant fits == (old(fits) && |args| <= MAX_ARGS)
        invariant ok ==> ParseArgs(Now(), curr, args) == ParseArgs(old(Now()), "", [])
        invariant !ok ==> ParseArgs(old(Now()), "", []) == ArgList(args, LexErr)
        decreases ok, Weight(Now())
      {
        if nextTok == Word {
          var word := ScanWord();
          if curr != "" {
            if arglen + |word| < MAX_WORD {
              curr := curr + " " + word;
              arglen := arglen + |word| + 1;
            }
          } else {
            curr := word;
            arglen := |word|;
          }
          ok := ScanToken();
        } else {
          var arg := Simplify(curr);
          if arg != "" {
            fits := fits && |args| < MAX_ARGS;
            args := args + [arg];
          }
          if nextTok != Comma {
            return;
          }
          curr := "";
          ok := ScanToken();
        }
      }
    }

    static method LookupFunc(funcname: string) returns (f: Option<Func>)
      ensures f == FindFunc(funcname)
    {
      var funcnum := 0;
      while funcnum < |FUNC_LIST|
        invariant funcnum <= |FUNC_LIST|
        invariant forall i :: 0 <= i < funcnum ==> FuncName(FUNC_LIST[i]) != Lower(funcname)
      {
        if FuncName(FUNC_LIST[funcnum]) == Lower(funcname) {
          return Some(FUNC_LIST[funcnum]);
        }
        funcnum := funcnum + 1;
      }
      assert FuncName(FUNC_LIST[0]) != Lower(funcname) && FuncName(FUNC_LIST[1]) != Lower(funcname);
      assert FuncName(FUNC_LIST[2]) != Lower(funcname) && FuncName(FUNC_LIST[3]) != Lower(funcname);
      return None;
    }

    method ParseFunctionCall() returns (err: ErrCode, node: Node)
      requires GoodLex(Now()) && nextTok == Word
      modifies this
      ensures Agrees(err, node, Now(), ParseFunction(old(Now())))
      ensures fits == (old(fits) && FunctionFits(old(Now())))
    {
      var funcname := ScanWord();
      var ok := ScanToken();
      if !ok {
        return UnknwTok, Hole;
      }
      if nextTok != OpenParen {
        return ExpctOpen, Hole;
      }
      var f := LookupFunc(funcname);
      if f.None? {
        return UnknwFunc, Hole;
      }
      ok := ScanToken();
      if !ok {
        return UnknwTok, Hole;
      }
      var args;
      ok, args := ParseArgList();
      if !ok {
        return UnknwTok, Aborted;
      }
      if nextTok != CloseParen {
        return ExpctClose, Aborted;
      }
      if Arity(f.value) != |args| {
        return ArgMismat, Aborted;
      }
      ok := ScanToken();
      if !ok {
        return UnknwTok, Aborted;
      }
      return NoErr, Call(f.value, args);
    }

    method ParsePrimaryExpr() returns (err: ErrCode, node: Node)
      requires GoodLex(Now())
      modifies this
      ensures Agrees(err, node, Now(), ParsePrimary(old(Now()), true))
      ensures fits == (old(fits) && PrimaryFits(old(Now())))
      decreases Weight(Now()), 0
    {
      var nots := 0;
      ghost var start := Now();
      ghost var spec := ParsePrimary(start, true);
      while true
        invariant GoodLex(Now()) && Weight(Now()) <= Weight(start)
        invariant nots > 0 ==> Weight(Now()) < Weight(start)
        invariant var r := ParsePrimary(Now(), nots == 0);
                  spec == Parsed(r.err, Negations(nots, r.node), r.next)
        invariant fits == old(fits) && PrimaryFits(Now()) == PrimaryFits(start)
        decreases Weight(Now())
      {
        match nextTok {
          case OpenParen =>
            var ok := ScanToken();
            if !ok {
              return UnknwTok, Negations(nots, Hole);
            }
            err, node := ParseOrExpr();
            if err != NoErr {
              return err, Negations(nots, node);
            }
            if node == Hole {
              return ExpctAnd, Negations(nots, Hole);
            }
            if nextTok != CloseParen {
              return ExpctClose, Negations(nots, node);
            }
            ok := ScanToken();
            return if ok then NoErr else UnknwTok, Negations(nots, node);
          case Not =>
            var ok := ScanToken();
            nots := nots + 1;
            if !ok {
              return UnknwTok, Negations(nots, Hole);
            }
          case Word =>
            err, node := ParseFunctionCall();
            return err, Negations(nots, node);
          case _ =>
            return if nots == 0 then NoErr else ExpctPrim, Negations(nots, Hole);
        }
      }
    }

    method ParseAndExpr() returns (err: ErrCode, node: Node)
      requires GoodLex(Now())
      modifies this
      ensures Agrees(err, node, Now(), ParseAnd(old(Now()), None))
      ensures fits == (old(fits) && AndFits(old(Now())))
      decreases Weight(Now()), 1
    {
      var open: Option<Node> := None;
      ghost var start := Now();
      while true
        invariant GoodLex(Now()) && Weight(Now()) <= Weight(start)
        invariant ParseAnd(Now(), open) == ParseAnd(start, None)
        invariant (fits && AndFits(Now())) == (old(fits) && AndFits(start))
        decreases Weight(Now())
      {
        var primary;
        err, primary := ParsePrimaryExpr();
        if err == NoErr && nextTok == And {
          open := Some(if open.Some? then AndOr(false, open.value, primary) else primary);
        } else if open.Some? {
          if primary != Hole {
            return err, AndOr(false, open.value, primary);
          } else {
            return ExpctPrim, AndOr(false, open.value, Hole);
          }
        } else {
          return err, primary;
        }
        var ok := ScanToken();
        if !ok {
          return UnknwTok, AndOr(false, open.value, Hole);
        }
      }
    }

    method ParseOrExpr() returns (err: ErrCode, node: Node)
      requires GoodLex(Now())
      modifies this
      ensures Agrees(err, node, Now(), ParseOr(old(Now()), None))
      ensures fits == (old(fits) && OrFits(old(Now())))
      decreases Weight(Now()), 2
    {
      var open: Option<Node> := None;
      ghost var start := Now();
      while true
        invariant GoodLex(Now()) && Weight(Now()) <= Weight(start)
        invariant ParseOr(Now(), open) == ParseOr(start, None)
        invariant (fits && OrFits(Now())) == (old(fits) && OrFits(start))
        decreases Weight(Now())
      {
        var andexpr;
        err, andexpr := ParseAndExpr();
        if err == NoErr && nextTok == Or {
          open := Some(if open.Some? then AndOr(true, open.value, andexpr) else andexpr);
        } else if open.Some? {
          if andexpr != Hole {
            return err, AndOr(true, open.value, andexpr);
          } else {
            return ExpctAnd, AndOr(true, open.value, Hole);
          }
        } else {
          return err, andexpr;
        }
        var ok := ScanToken();
        if !ok {
          return UnknwTok, AndOr(true, open.value, Hole);
        }
      }
    }
  }

  /** The methods agree with the functions: same error, same node, and same scanner on success. */
  ghost predicate Agrees(err: ErrCode, node: Node, now: Lex, r: Parsed) {
    err == r.err && node == r.node && (err == NoErr ==> now == r.next)
  }

  /** The chain of '!' nodes above the insertion point of a primary. */
  function Negations(n: nat, node: Node): Node {
    if n == 0 then node else Negations(n - 1, Negate(node))
  }

  /** crule_parse; fits: no argument was stored behind the slots of its node. */
  method CruleParse(rule: string) returns (root: Option<Node>, ghost fits: bool)
    ensures root == Parse(rule) && fits == RuleFits(rule)
  {
    var p := new Parser(rule);
    var ok := p.ScanToken();
    if ok {
      var err, node := p.ParseOrExpr();
      if err == NoErr && node != Hole && p.nextTok == End {
        return Some(node), p.fits;
      }
    }
    return None, p.fits;
  }
}
