/** The parser of Pump: recursive descent over a shared list of tokens. */
module PumpParser {
  import opened Text

  // ---------- Tokens and nodes ----------

  datatype Kind =
    | CodeText | Var | Elif | Else | For | If | Range | Id | LiteralDollar | Dollar
    | Open | Close | Identifier | Equals | Exp | Dots

  /** The positions of tokens only appear in messages. */
  datatype Token = Token(kind: Kind, value: string)

  /** The value of a variable is an expression or code; the other code fields hold code. */
  datatype Node =
    | CodeNode(atoms: seq<Node>)
    | VarNode(identifier: string, value: Node)
    | RangeNode(identifier: string, exp1: Node, exp2: Node)
    | ForNode(identifier: string, sep: Option<string>, code: Node)
    | IfNode(exp: Node, thenBranch: Node, elseBranch: Option<Node>)
    | RawCodeNode(text: string)
    | LiteralDollarNode
    | ExpNode(text: string)

  /** The result of a parse and the tokens left, or the end of the program by an error. */
  datatype Outcome<T> = Parsed(value: T, rest: seq<Token>) | Exits

  predicate HasKind(tokens: seq<Token>, kind: Kind) { tokens != [] && tokens[0].kind == kind }

  function AfterDollar(value: string): string { if value == "" then "" else value[1..] }

  /** Code between double brackets. */
  function Bracketed(tokens: seq<Token>): (o: Outcome<Node>)
    ensures o.Parsed? ==> |o.rest| < |tokens|
    decreases |tokens|, 3
  {
    if !HasKind(tokens, Open) then Exits
    else
      match ParseAtoms(tokens[1..])
      case Exits => Exits
      case Parsed(atoms, rest) => if HasKind(rest, Close) then Parsed(CodeNode(atoms), rest[1..]) else Exits
  }

  function ParseElse(tokens: seq<Token>): (o: Outcome<Option<Node>>)
    ensures o.Parsed? ==> |o.rest| <= |tokens|
    decreases |tokens|, 0
  {
    if tokens == [] then Parsed(None, tokens)
    else if tokens[0].kind == Else then
      match Bracketed(tokens[1..])
      case Exits => Exits
      case Parsed(code, rest) => Parsed(Some(code), rest)
    else if tokens[0].kind == Elif then ParseElif(tokens)
    else if AllSpace(tokens[0].value) then
      if tokens[0].kind == CodeText then ParseElse(tokens[1..]) else Exits
    else Parsed(None, tokens)
  }

  function ParseElif(tokens: seq<Token>): (o: Outcome<Option<Node>>)
    requires tokens != []
    ensures o.Parsed? ==> |o.rest| <= |tokens|
    decreases |tokens| - 1, 4
  {
    if !HasKind(tokens[1..], CodeText) then Exits
    else
      match Bracketed(tokens[2..])
      case Exits => Exits
      case Parsed(code, rest) =>
        match ParseElse(rest)
        case Exits => Exits
        case Parsed(inner, rest) => Parsed(Some(CodeNode([IfNode(ExpNode(tokens[1].value), code, inner)])), rest)
  }

  function ParseVar(tokens: seq<Token>): (o: Outcome<Option<Node>>)
    ensures o.Parsed? ==> |o.rest| < |tokens|
    decreases |tokens|, 4
  {
    if !HasKind(tokens, Identifier) || !HasKind(tokens[1..], Equals) || |tokens| == 2 then Exits
    else if tokens[2].kind == Exp then Parsed(Some(VarNode(tokens[0].value, ExpNode(tokens[2].value))), tokens[3..])
    else
      match Bracketed(tokens[2..])
      case Exits => Exits
      case Parsed(code, rest) => Parsed(Some(VarNode(tokens[0].value, code)), rest)
  }

  function ParseFor(tokens: seq<Token>): (o: Outcome<Option<Node>>)
    ensures o.Parsed? ==> |o.rest| < |tokens|
    decreases |tokens|, 4
  {
    if !HasKind(tokens, Identifier) || |tokens| == 1 then Exits
    else
      var separated := tokens[1].kind == CodeText;
      match Bracketed(if separated then tokens[2..] else tokens[1..])
      case Exits => Exits
      case Parsed(code, rest) =>
        Parsed(Some(ForNode(tokens[0].value, if separated then Some(tokens[1].value) else None, code)), rest)
  }

  function ParseIf(tokens: seq<Token>): (o: Outcome<Option<Node>>)
    ensures o.Parsed? ==> |o.rest| < |tokens|
    decreases |tokens|, 4
  {
    if !HasKind(tokens, CodeText) then Exits
    else
      match Bracketed(tokens[1..])
      case Exits => Exits
      case Parsed(code, rest) =>
        match ParseElse(rest)
        case Exits => Exits
        case Parsed(elseBranch, rest) => Parsed(Some(IfNode(ExpNode(tokens[0].value), code, elseBranch)), rest)
  }

  function ParseRange(tokens: seq<Token>): (o: Outcome<Option<Node>>)
    ensures o.Parsed? ==> |o.rest| < |tokens|
  {
    if |tokens| >= 4 && tokens[0].kind == Identifier && tokens[1].kind == Exp && tokens[2].kind == Dots
       && tokens[3].kind == Exp
    then Parsed(Some(RangeNode(tokens[0].value, ExpNode(tokens[1].value), ExpNode(tokens[3].value))), tokens[4..])
    else Exits
  }

  /** No node, and no token taken, if the first token cannot start one. */
  function ParseAtomic(tokens: seq<Token>): (o: Outcome<Option<Node>>)
    requires tokens != []
    ensures o.Parsed? ==> if o.value.Some? then |o.rest| < |tokens| else o.rest == tokens
    decreases |tokens|, 4
  {
    var head, tail := tokens[0], tokens[1..];
    match head.kind
    case CodeText => Parsed(Some(RawCodeNode(head.value)), tail)
    case Var => ParseVar(tail)
    case For => ParseFor(tail)
    case If => ParseIf(tail)
    case Range => ParseRange(tail)
    case Id => Parsed(Some(ExpNode(AfterDollar(head.value))), tail)
    case LiteralDollar => Parsed(Some(LiteralDollarNode), tail)
    case Dollar => if HasKind(tail, Exp) then Parsed(Some(ExpNode(tail[0].value)), tail[1..]) else Exits
    case Open =>
      (match Bracketed(tokens) case Exits => Exits case Parsed(code, rest) => Parsed(Some(code), rest))
    case _ => Parsed(None, tokens)
  }

  function ParseAtoms(tokens: seq<Token>): (o: Outcome<seq<Node>>)
    ensures o.Parsed? ==> |o.rest| <= |tokens|
    decreases |tokens|, 5
  {
    if tokens == [] then Parsed([], [])
    else
      match ParseAtomic(tokens)
      case Exits => Exits
      case Parsed(None, rest) => Parsed([], rest)
      case Parsed(Some(node), rest) =>
        match ParseAtoms(rest)
        case Exits => Exits
        case Parsed(more, rest) => Parsed([node] + more, rest)
  }

  // ---------- The parser ----------

  datatype Result<T> = Ok(value: T) | Exit {
    predicate IsFailure() { Exit? }

    function PropagateFailure<U>(): Result<U>
      requires IsFailure()
    {
      Exit
    }

    function Extract(): T
      requires !IsFailure()
    {
      value
    }
  }

  ghost predicate Agrees<T>(o: Outcome<T>, r: Result<T>, left: seq<Token>) {
    match o
    case Exits => r.Exit?
    case Parsed(value, rest) => r == Ok(value) && left == rest
  }

  class TokenList {
    var tokens: seq<Token>

    constructor (tokens: seq<Token>)
      ensures this.tokens == tokens
    {
      this.tokens := tokens;
    }

    method PopFront() returns (head: Token)
      requires tokens != []
      modifies this
      ensures head == old(tokens)[0] && tokens == old(tokens)[1..]
    {
      head, tokens := tokens[0], tokens[1..];
    }

    method PushFront(elem: Token)
      modifies this
      ensures tokens == [elem] + old(tokens)
    {
      tokens := [elem] + tokens;
    }

    method PopToken(kind: Kind) returns (token: Result<Token>)
      modifies this
      ensures token == if HasKind(old(tokens), kind) then Ok(old(tokens)[0]) else Exit
      ensures token.Ok? ==> tokens == old(tokens)[1..]
    {
      if tokens == [] {
        return Exit;
      }
      var head := PopFront();
      token := if head.kind == kind then Ok(head) else Exit;
    }

    method PeekToken() returns (token: Option<Token>)
      ensures token == if tokens == [] then None else Some(tokens[0])
    {
      token := if tokens == [] then None else Some(tokens[0]);
    }
  }

  method ParseBracketed(list: TokenList) returns (code: Result<Node>)
    modifies list
    ensures Agrees(Bracketed(old(list.tokens)), code, list.tokens)
    decreases |list.tokens|, 3
  {
    hide ParseAtoms;
    var open :- list.PopToken(Open);
    var codeNode :- ParseCodeNode(list);
    var close :- list.PopToken(Close);
    code := Ok(codeNode);
  }

  method ParseElseNode(list: TokenList) returns (node: Result<Option<Node>>)
    modifies list
    ensures Agrees(ParseElse(old(list.tokens)), node, list.tokens)
    decreases |list.tokens|, 0
  {
    hide Bracketed, AllSpace;
    var next := list.PeekToken();
    if next.None? {
      return Ok(None);
    }
    if next.value.kind == Else {
      var elseToken := list.PopToken(Else);
      var codeNode :- ParseBracketed(list);
      return Ok(Some(codeNode));
    } else if next.value.kind == Elif {
      ghost var tokens := list.tokens;
      var elifToken := list.PopToken(Elif);
      var exp :- list.PopToken(CodeText);
      assert list.tokens == tokens[2..];
      var codeNode :- ParseBracketed(list);
      var innerElseNode :- ParseElseNode(list);
      return Ok(Some(CodeNode([IfNode(ExpNode(exp.value), codeNode, innerElseNode)])));
    } else if AllSpace(next.value.value) {
      var blank :- list.PopToken(CodeText);
      node := ParseElseNode(list);
    } else {
      return Ok(None);
    }
  }

  // The branches of ParseAtomicCodeNode for `$var`, `$for`, `$if` and `$range`.

  method ParseVarNode(list: TokenList) returns (node: Result<Option<Node>>)
    modifies list
    ensures Agrees(ParseVar(old(list.tokens)), node, list.tokens)
    decreases |list.tokens|, 4
  {
    hide Bracketed;
    ghost var tokens := list.tokens;
    var idToken :- list.PopToken(Identifier);
    var equals :- list.PopToken(Equals);
    assert list.tokens == tokens[2..];
    var next := list.PeekToken();
    if next.None? {
      return Exit;
    }
    if next.value.kind == Exp {
      var expToken := list.PopFront();
      return Ok(Some(VarNode(idToken.value, ExpNode(expToken.value))));
    }
    var codeNode :- ParseBracketed(list);
    node := Ok(Some(VarNode(idToken.value, codeNode)));
  }

  method ParseForNode(list: TokenList) returns (node: Result<Option<Node>>)
    modifies list
    ensures Agrees(ParseFor(old(list.tokens)), node, list.tokens)
    decreases |list.tokens|, 4
  {
    hide Bracketed;
    ghost var tokens := list.tokens;
    var idToken :- list.PopToken(Identifier);
    var nextToken := list.PeekToken();
    if nextToken.None? {
      return Exit;
    }
    var sep := None;
    if nextToken.value.kind == CodeText {
      sep := Some(nextToken.value.value);
      var sepToken := list.PopToken(CodeText);
      assert list.tokens == tokens[2..];
    }
    var codeNode :- ParseBracketed(list);
    node := Ok(Some(ForNode(idToken.value, sep, codeNode)));
  }

  method ParseIfNode(list: TokenList) returns (node: Result<Option<Node>>)
    modifies list
    ensures Agrees(ParseIf(old(list.tokens)), node, list.tokens)
    decreases |list.tokens|, 4
  {
    hide Bracketed, ParseElse;
    var expToken :- list.PopToken(CodeText);
    var codeNode :- ParseBracketed(list);
    var elseNode :- ParseElseNode(list);
    node := Ok(Some(IfNode(ExpNode(expToken.value), codeNode, elseNode)));
  }

  method ParseRangeNode(list: TokenList) returns (node: Result<Option<Node>>)
    modifies list
    ensures Agrees(ParseRange(old(list.tokens)), node, list.tokens)
  {
    var idToken :- list.PopToken(Identifier);
    var exp1Token :- list.PopToken(Exp);
    var dots :- list.PopToken(Dots);
    var exp2Token :- list.PopToken(Exp);
    node := Ok(Some(RangeNode(idToken.value, ExpNode(exp1Token.value), ExpNode(exp2Token.value))));
  }

  method ParseAtomicCodeNode(list: TokenList) returns (node: Result<Option<Node>>)
    requires list.tokens != []
    modifies list
    ensures Agrees(ParseAtomic(old(list.tokens)), node, list.tokens)
    decreases |list.tokens|, 4
  {
    hide Bracketed, ParseVar, ParseFor, ParseIf, ParseRange;
    ghost var tokens := list.tokens;
    var head := list.PopFront();
    match head.kind
    case CodeText => node := Ok(Some(RawCodeNode(head.value)));
    case Var => node := ParseVarNode(list);
    case For => node := ParseForNode(list);
    case If => node := ParseIfNode(list);
    case Range => node := ParseRangeNode(list);
    case Id => node := Ok(Some(ExpNode(AfterDollar(head.value))));
    case LiteralDollar => node := Ok(Some(LiteralDollarNode));
    case Dollar =>
      var expToken :- list.PopToken(Exp);
      node := Ok(Some(ExpNode(expToken.value)));
    case Open =>
      list.PushFront(head);
      assert list.tokens == tokens;
      var codeNode :- ParseBracketed(list);
      node := Ok(Some(codeNode));
    case _ =>
      list.PushFront(head);
      node := Ok(None);
  }

  function AsCode(o: Outcome<seq<Node>>): Outcome<Node> {
    match o case Exits => Exits case Parsed(atoms, rest) => Parsed(CodeNode(atoms), rest)
  }

  lemma PrependNothing(o: Outcome<seq<Node>>)
    ensures Prepend([], o) == AsCode(o)
  {
    if o.Parsed? {
      assert [] + o.value == o.value;
    }
  }

  function Prepend(front: seq<Node>, o: Outcome<seq<Node>>): Outcome<Node> {
    match o
    case Exits => Exits
    case Parsed(more, rest) => Parsed(CodeNode(front + more), rest)
  }

  method ParseCodeNode(list: TokenList) returns (code: Result<Node>)
    modifies list
    ensures Agrees(AsCode(ParseAtoms(old(list.tokens))), code, list.tokens)
    decreases |list.tokens|, 5
  {
    hide ParseAtomic;
    ghost var goal := AsCode(ParseAtoms(list.tokens));
    PrependNothing(ParseAtoms(list.tokens));
    var atomicCodeList := [];
    while list.tokens != []
      invariant goal == Prepend(atomicCodeList, ParseAtoms(list.tokens))
      invariant |list.tokens| <= |old(list.tokens)|
      decreases |list.tokens|
    {
      AtomsStep(atomicCodeList, list.tokens);
      var atomicCodeNode :- ParseAtomicCodeNode(list);
      if atomicCodeNode.None? {
        break;
      }
      atomicCodeList := atomicCodeList + [atomicCodeNode.value];
    }
    code := Ok(CodeNode(atomicCodeList));
    assert atomicCodeList + [] == atomicCodeList;
  }

  lemma AtomsStep(front: seq<Node>, tokens: seq<Token>)
    requires tokens != []
    ensures Prepend(front, ParseAtoms(tokens)) ==
            match ParseAtomic(tokens)
            case Exits => Exits
            case Parsed(None, rest) => Parsed(CodeNode(front), rest)
            case Parsed(Some(node), rest) => Prepend(front + [node], ParseAtoms(rest))
  {
    assert front + [] == front;
    if ParseAtomic(tokens).Parsed? && ParseAtomic(tokens).value.Some? {
      var node, rest := ParseAtomic(tokens).value.value, ParseAtomic(tokens).rest;
      if ParseAtoms(rest).Parsed? {
        Associate(front, [node], ParseAtoms(rest).value);
      }
    }
  }

  method ParseToAST(tokens: seq<Token>) returns (code: Result<Node>, left: seq<Token>)
    ensures Agrees(AsCode(ParseAtoms(tokens)), code, left)
  {
    var list := new TokenList(tokens);
    code := ParseCodeNode(list);
    left := list.tokens;
  }
}
