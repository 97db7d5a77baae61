/** Pump programs as they are written, their tokens, and what the parser makes of them. */
module PumpSyntax {
  import opened Text
  import opened PumpParser

  // ---------- Programs ----------

  datatype Program = End | Then(first: Atom, rest: Program)

  datatype Atom =
    | Raw(text: string)
    | VarExp(id: string, exp: string)
    | VarCode(id: string, code: Program)
    | RangeOf(id: string, exp1: string, exp2: string)
    | ForEach(id: string, sep: Option<string>, code: Program)
    | IfElse(exp: string, code: Program, branch: Branch)
    | Name(name: string)
    | Expression(exp: string)
    | DollarSign
    | Block(code: Program)

  /** White space may stand before `$else` and `$elif`. */
  datatype Branch =
    | NoBranch
    | ElseBranch(blanks: seq<string>, code: Program)
    | ElifBranch(blanks: seq<string>, exp: string, code: Program, branch: Branch)

  predicate Blank(blanks: seq<string>) {
    forall i :: 0 <= i < |blanks| ==> AllSpace(blanks[i])
  }

  predicate WellFormed(p: Program) {
    match p
    case End => true
    case Then(a, rest) => WellFormedAtom(a) && WellFormed(rest)
  }

  predicate WellFormedAtom(a: Atom) {
    match a
    case VarCode(_, code) => WellFormed(code)
    case ForEach(_, _, code) => WellFormed(code)
    case IfElse(_, code, branch) => WellFormed(code) && WellFormedBranch(branch)
    case Block(code) => WellFormed(code)
    case _ => true
  }

  predicate WellFormedBranch(b: Branch) {
    match b
    case NoBranch => true
    case ElseBranch(blanks, code) => Blank(blanks) && WellFormed(code)
    case ElifBranch(blanks, _, code, branch) => Blank(blanks) && WellFormed(code) && WellFormedBranch(branch)
  }

  // ---------- Tokens ----------

  function OpenToken(): Token { Token(Open, "[[") }

  function CloseToken(): Token { Token(Close, "]]") }

  function Texts(blanks: seq<string>): seq<Token> {
    if blanks == [] then [] else [Token(CodeText, blanks[0])] + Texts(blanks[1..])
  }

  function BlockTokens(code: Program): seq<Token>
    decreases code, 1
  {
    [OpenToken()] + (Tokens(code) + [CloseToken()])
  }

  function Tokens(p: Program): seq<Token>
    decreases p, 0
  {
    match p
    case End => []
    case Then(a, rest) => AtomTokens(a) + Tokens(rest)
  }

  function ForHead(id: string, sep: Option<string>): seq<Token> {
    match sep
    case None => [Token(Identifier, id)]
    case Some(s) => [Token(Identifier, id), Token(CodeText, s)]
  }

  function AtomTokens(a: Atom): seq<Token>
    decreases a, 0
  {
    match a
    case Raw(text) => [Token(CodeText, text)]
    case VarExp(id, exp) => [Token(Var, "$var ")] + ([Token(Identifier, id), Token(Equals, "=")] + [Token(Exp, exp)])
    case VarCode(id, code) => [Token(Var, "$var ")] + ([Token(Identifier, id), Token(Equals, "=")] + BlockTokens(code))
    case RangeOf(id, exp1, exp2) =>
      [Token(Range, "$range ")] + [Token(Identifier, id), Token(Exp, exp1), Token(Dots, ".."), Token(Exp, exp2)]
    case ForEach(id, sep, code) =>
      [Token(For, "$for ")] +
      (ForHead(id, sep) + BlockTokens(code))
    case IfElse(exp, code, branch) =>
      [Token(If, "$if ")] + ([Token(CodeText, exp)] + (BlockTokens(code) + BranchTokens(branch)))
    case Name(name) => [Token(Id, "$" + name)]
    case Expression(exp) => [Token(Dollar, "$")] + [Token(Exp, exp)]
    case DollarSign => [Token(LiteralDollar, "$($)")]
    case Block(code) => BlockTokens(code)
  }

  function BranchTokens(b: Branch): seq<Token>
    decreases b, 0
  {
    match b
    case NoBranch => []
    case ElseBranch(blanks, code) => Texts(blanks) + ([Token(Else, "$else ")] + BlockTokens(code))
    case ElifBranch(blanks, exp, code, branch) =>
      Texts(blanks) + ([Token(Elif, "$elif "), Token(CodeText, exp)] + (BlockTokens(code) + BranchTokens(branch)))
  }

  // ---------- Trees ----------

  /** The chain of branches does not end in `$else`. */
  predicate EndsOpen(b: Branch) {
    match b case NoBranch => true case ElseBranch(_, _) => false case ElifBranch(_, _, _, branch) => EndsOpen(branch)
  }

  predicate LeavesOpen(a: Atom) { a.IfElse? && EndsOpen(a.branch) }

  predicate IsBlank(a: Atom) { a.Raw? && AllSpace(a.text) }

  /** The nodes of a program: all of them, or all but the blank raw code that directly follows
      an `$if` without `$else`. */
  function Nodes(p: Program, afterIf: bool, all: bool): seq<Node>
    decreases p, 0
  {
    match p
    case End => []
    case Then(a, rest) =>
      if afterIf && !all && IsBlank(a) then Nodes(rest, true, all)
      else [NodeOf(a, all)] + Nodes(rest, LeavesOpen(a), all)
  }

  function Code(p: Program, all: bool): Node
    decreases p, 1
  {
    CodeNode(Nodes(p, false, all))
  }

  function NodeOf(a: Atom, all: bool): Node
    decreases a, 0
  {
    match a
    case Raw(text) => RawCodeNode(text)
    case VarExp(id, exp) => VarNode(id, ExpNode(exp))
    case VarCode(id, code) => VarNode(id, Code(code, all))
    case RangeOf(id, exp1, exp2) => RangeNode(id, ExpNode(exp1), ExpNode(exp2))
    case ForEach(id, sep, code) => ForNode(id, sep, Code(code, all))
    case IfElse(exp, code, branch) => IfNode(ExpNode(exp), Code(code, all), BranchNode(branch, all))
    case Name(name) => ExpNode(name)
    case Expression(exp) => ExpNode(exp)
    case DollarSign => LiteralDollarNode
    case Block(code) => Code(code, all)
  }

  /** `$elif` is an `$if` inside the code of the branch. */
  function BranchNode(b: Branch, all: bool): Option<Node>
    decreases b, 0
  {
    match b
    case NoBranch => None
    case ElseBranch(_, code) => Some(Code(code, all))
    case ElifBranch(_, exp, code, branch) =>
      Some(CodeNode([IfNode(ExpNode(exp), Code(code, all), BranchNode(branch, all))]))
  }

  // ---------- Parsing the tokens of a program ----------

  predicate Ends(following: seq<Token>) { following == [] || following[0] == CloseToken() }

  lemma CloseEnds(following: seq<Token>)
    requires Ends(following)
    ensures ParseAtoms(following) == Parsed([], following) && ParseElse(following) == Parsed(None, following)
  {
    assert CloseToken().value[0] == ']';
  }

  lemma BlockReads(code: Program, following: seq<Token>, atoms: seq<Node>)
    requires ParseAtoms(Tokens(code) + ([CloseToken()] + following)) == Parsed(atoms, [CloseToken()] + following)
    ensures Bracketed(BlockTokens(code) + following) == Parsed(CodeNode(atoms), following)
  {
    hide ParseAtoms, Tokens;
    var tokens := BlockTokens(code) + following;
    assert tokens[0] == OpenToken();
    assert tokens[1..] == Tokens(code) + ([CloseToken()] + following);
    assert ([CloseToken()] + following)[1..] == following;
  }

  lemma {:induction false} BlanksSkipped(blanks: seq<string>, following: seq<Token>)
    requires Blank(blanks)
    ensures ParseElse(Texts(blanks) + following) == ParseElse(following)
  {
    var tokens := Texts(blanks) + following;
    if blanks == [] {
      assert tokens == following;
    } else {
      hide AllSpace;
      assert tokens[0] == Token(CodeText, blanks[0]);
      assert tokens[1..] == Texts(blanks[1..]) + following;
      BlanksSkipped(blanks[1..], following);
    }
  }

  lemma ElseReads(tokens: seq<Token>, code: Node, rest: seq<Token>)
    requires HasKind(tokens, Else) && Bracketed(tokens[1..]) == Parsed(code, rest)
    ensures ParseElse(tokens) == Parsed(Some(code), rest)
  {}

  lemma ElifReads(exp: string, tokens: seq<Token>, code: Node, rest: seq<Token>, inner: Option<Node>, left: seq<Token>)
    requires Bracketed(tokens) == Parsed(code, rest) && ParseElse(rest) == Parsed(inner, left)
    ensures ParseElse([Token(Elif, "$elif "), Token(CodeText, exp)] + tokens) ==
            Parsed(Some(CodeNode([IfNode(ExpNode(exp), code, inner)])), left)
  {
    hide Bracketed;
    var all := [Token(Elif, "$elif "), Token(CodeText, exp)] + tokens;
    assert all[0].kind == Elif && all[1..][0] == Token(CodeText, exp) && all[2..] == tokens;
  }

  /** A chain of branches; `left` is what is left after looking for one more branch. */
  lemma {:induction false} BranchReads(b: Branch, following: seq<Token>, left: seq<Token>)
    requires WellFormedBranch(b)
    requires EndsOpen(b) ==> ParseElse(following) == Parsed(None, left)
    ensures ParseElse(BranchTokens(b) + following) ==
            Parsed(BranchNode(b, false), if EndsOpen(b) then left else following)
    decreases b
  {
    hide ParseElse, Bracketed, BlockTokens, Texts, Blank, Code;
    match b
    case NoBranch =>
      assert [] + following == following;
    case ElseBranch(blanks, code) =>
      var tokens := [Token(Else, "$else ")] + (BlockTokens(code) + following);
      assert BranchTokens(b) + following == Texts(blanks) + tokens;
      BlanksSkipped(blanks, tokens);
      CodeReads(code, following);
      assert tokens[1..] == BlockTokens(code) + following;
      ElseReads(tokens, Code(code, false), following);
    case ElifBranch(blanks, exp, code, branch) =>
      var more := BranchTokens(branch) + following;
      var tokens := [Token(Elif, "$elif "), Token(CodeText, exp)] + (BlockTokens(code) + more);
      assert BranchTokens(b) + following == Texts(blanks) + tokens;
      BlanksSkipped(blanks, tokens);
      CodeReads(code, more);
      BranchReads(branch, following, left);
      ElifReads(exp, BlockTokens(code) + more, Code(code, false), more, BranchNode(branch, false),
                if EndsOpen(branch) then left else following);
  }

  lemma CodeReads(code: Program, following: seq<Token>)
    requires WellFormed(code)
    ensures Bracketed(BlockTokens(code) + following) == Parsed(Code(code, false), following)
    decreases code, 2
  {
    hide ParseAtoms, Bracketed, Tokens, BlockTokens;
    ProgramReads(code, [CloseToken()] + following);
    BlockReads(code, following, Nodes(code, false, false));
  }

  predicate HasCode(a: Atom) { a.VarCode? || a.ForEach? || a.IfElse? || a.Block? }

  lemma SimpleReads(a: Atom, following: seq<Token>)
    requires !HasCode(a)
    ensures ParseAtomic(AtomTokens(a) + following) == Parsed(Some(NodeOf(a, false)), following)
  {
    hide Bracketed;
    var tokens := AtomTokens(a) + following;
    assert tokens[|AtomTokens(a)|..] == following;
    match a
    case VarExp(id, exp) =>
      assert tokens[1..][3..] == following && tokens[1..][2] == Token(Exp, exp);
    case RangeOf(id, exp1, exp2) =>
      assert tokens[1..][4..] == following;
    case Name(name) =>
      assert ("$" + name)[1..] == name;
    case Expression(exp) =>
      assert tokens[1..][1..] == following;
    case _ =>
  }

  lemma KeywordReads(head: Token, tail: seq<Token>, following: seq<Token>)
    ensures var tokens := [head] + tail + following;
            ParseAtomic(tokens) ==
            match head.kind
            case Var => ParseVar(tail + following)
            case For => ParseFor(tail + following)
            case If => ParseIf(tail + following)
            case _ => ParseAtomic(tokens)
  {
    hide ParseVar, ParseFor, ParseIf, ParseRange, Bracketed;
    assert ([head] + tail + following)[1..] == tail + following;
  }

  /** One piece of a program; only an `$if` without `$else` looks at what follows it. */
  lemma {:induction false} AtomReads(a: Atom, following: seq<Token>, left: seq<Token>)
    requires WellFormedAtom(a)
    requires LeavesOpen(a) ==> ParseElse(following) == Parsed(None, left)
    ensures AtomTokens(a) != []
    ensures ParseAtomic(AtomTokens(a) + following) ==
            Parsed(Some(NodeOf(a, false)), if LeavesOpen(a) then left else following)
    decreases a
  {
    hide ParseAtomic, ParseVar, ParseFor, ParseIf, ParseElse, Bracketed, BlockTokens, BranchTokens, Code;
    match a
    case VarCode(id, code) =>
      var head := [Token(Identifier, id), Token(Equals, "=")];
      CodeReads(code, following);
      VarReads(id, BlockTokens(code) + following, Code(code, false), following);
      KeywordReads(Token(Var, "$var "), head + BlockTokens(code), following);
      Associate(head, BlockTokens(code), following);
    case ForEach(id, sep, code) =>
      var head := ForHead(id, sep);
      CodeReads(code, following);
      ForReads(id, sep, BlockTokens(code) + following, Code(code, false), following);
      KeywordReads(Token(For, "$for "), head + BlockTokens(code), following);
      Associate(head, BlockTokens(code), following);
    case IfElse(exp, code, branch) =>
      var more := BranchTokens(branch) + following;
      CodeReads(code, more);
      BranchReads(branch, following, left);
      IfReads(exp, BlockTokens(code) + more, Code(code, false), more);
      KeywordReads(Token(If, "$if "), [Token(CodeText, exp)] + (BlockTokens(code) + BranchTokens(branch)), following);
      Associate([Token(CodeText, exp)], BlockTokens(code) + BranchTokens(branch), following);
      Associate(BlockTokens(code), BranchTokens(branch), following);
    case Block(code) =>
      CodeReads(code, following);
      BlockStarts(code, following);
      OpenReads(BlockTokens(code) + following);
    case _ =>
      SimpleReads(a, following);
  }

  lemma OpenReads(tokens: seq<Token>)
    requires HasKind(tokens, Open)
    ensures ParseAtomic(tokens) ==
            match Bracketed(tokens) case Exits => Exits case Parsed(code, rest) => Parsed(Some(code), rest)
  {
    hide Bracketed;
  }

  lemma BlockStarts(code: Program, following: seq<Token>)
    ensures BlockTokens(code) != [] && (BlockTokens(code) + following)[0] == OpenToken()
  {}

  lemma VarReads(id: string, tokens: seq<Token>, code: Node, rest: seq<Token>)
    requires Bracketed(tokens) == Parsed(code, rest)
    ensures ParseVar([Token(Identifier, id), Token(Equals, "=")] + tokens) == Parsed(Some(VarNode(id, code)), rest)
  {
    hide ParseAtoms;
    var all := [Token(Identifier, id), Token(Equals, "=")] + tokens;
    assert all[1..][0].kind == Equals && all[2..] == tokens && all[2] == tokens[0];
  }

  lemma ForReads(id: string, sep: Option<string>, tokens: seq<Token>, code: Node, rest: seq<Token>)
    requires Bracketed(tokens) == Parsed(code, rest)
    ensures ParseFor(ForHead(id, sep) + tokens) ==
            Parsed(Some(ForNode(id, sep, code)), rest)
  {
    hide ParseAtoms;
    match sep
    case None =>
      var all := [Token(Identifier, id)] + tokens;
      assert all[1..] == tokens && all[1] == tokens[0];
    case Some(s) =>
      var all := [Token(Identifier, id), Token(CodeText, s)] + tokens;
      assert all[2..] == tokens && all[1] == Token(CodeText, s);
  }

  lemma IfReads(exp: string, tokens: seq<Token>, code: Node, rest: seq<Token>)
    requires Bracketed(tokens) == Parsed(code, rest)
    ensures ParseIf([Token(CodeText, exp)] + tokens) ==
            match ParseElse(rest)
            case Exits => Exits
            case Parsed(branch, left) => Parsed(Some(IfNode(ExpNode(exp), code, branch)), left)
  {
    hide ParseAtoms, ParseElse, Bracketed;
    assert ([Token(CodeText, exp)] + tokens)[1..] == tokens;
  }

  lemma AtomsContinue(tokens: seq<Token>, node: Node, rest: seq<Token>)
    requires tokens != [] && ParseAtomic(tokens) == Parsed(Some(node), rest)
    ensures ParseAtoms(tokens) ==
            match ParseAtoms(rest) case Exits => Exits case Parsed(more, left) => Parsed([node] + more, left)
  {
    hide ParseAtomic;
  }

  /** The parser gives the nodes of a program and leaves what follows it. */
  lemma {:induction false} ProgramReads(p: Program, following: seq<Token>)
    requires WellFormed(p) && Ends(following)
    ensures ParseAtoms(Tokens(p) + following) == Parsed(Nodes(p, false, false), following)
    decreases p, 0
  {
    hide ParseAtoms, ParseElse, ParseAtomic, AtomTokens, WellFormedAtom, NodeOf, LeavesOpen, IsBlank, Ends;
    match p
    case End =>
      CloseEnds(following);
      assert [] + following == following;
    case Then(a, rest) =>
      var more := Tokens(rest) + following;
      var left := AfterOpenIf(rest, following);
      ProgramReads(rest, following);
      AtomReads(a, more, left);
      AtomsContinue(AtomTokens(a) + more, NodeOf(a, false), if LeavesOpen(a) then left else more);
      assert Tokens(p) + following == AtomTokens(a) + more;
  }

  /** What an `$if` without `$else` leaves of the program that follows it. */
  lemma {:induction false} AfterOpenIf(p: Program, following: seq<Token>) returns (left: seq<Token>)
    requires WellFormed(p) && Ends(following)
    ensures ParseElse(Tokens(p) + following) == Parsed(None, left)
    ensures ParseAtoms(left) == Parsed(Nodes(p, true, false), following)
    decreases p, 1
  {
    hide ParseAtoms, ParseElse, ParseAtomic, AtomTokens, WellFormedAtom, NodeOf, LeavesOpen, Ends;
    left := Tokens(p) + following;
    match p
    case End =>
      CloseEnds(following);
      assert left == following;
    case Then(a, rest) =>
      if IsBlank(a) {
        left := AfterOpenIf(rest, following);
        BlankSkipped(a, Tokens(rest) + following);
        assert Tokens(p) + following == AtomTokens(a) + (Tokens(rest) + following);
      } else {
        ProgramReads(p, following);
        NoBranchStarts(a, Tokens(rest) + following);
        assert left == AtomTokens(a) + (Tokens(rest) + following);
      }
  }

  lemma BlankSkipped(a: Atom, following: seq<Token>)
    requires IsBlank(a)
    ensures ParseElse(AtomTokens(a) + following) == ParseElse(following)
  {
    BlanksSkipped([a.text], following);
    assert Texts([a.text]) == AtomTokens(a);
  }

  lemma NoBranchStarts(a: Atom, following: seq<Token>)
    requires !IsBlank(a)
    ensures ParseElse(AtomTokens(a) + following) == Parsed(None, AtomTokens(a) + following)
  {
    hide ParseAtoms, Bracketed, BlockTokens, BranchTokens, Tokens;
    match a
    case Block(code) =>
      BlockStarts(code, following);
      assert OpenToken().value[0] == '[';
    case Raw(text) =>
      assert (AtomTokens(a) + following)[0] == Token(CodeText, text);
    case _ =>
      assert (AtomTokens(a) + following)[0].value[0] == '$';
  }

  /** Parsing the tokens of a program takes all of them; a blank after an `$if` without `$else`
      is not in the tree. */
  lemma ProgramParses(p: Program)
    requires WellFormed(p)
    ensures ParseAtoms(Tokens(p)) == Parsed(Nodes(p, false, false), [])
  {
    ProgramReads(p, []);
    assert Tokens(p) + [] == Tokens(p);
  }

  // ---------- When the tree is complete ----------

  /** Nowhere does blank raw code follow an `$if` without `$else`. */
  predicate KeepsBlanks(p: Program, afterIf: bool) {
    match p
    case End => true
    case Then(a, rest) => !(afterIf && IsBlank(a)) && KeepsInAtom(a) && KeepsBlanks(rest, LeavesOpen(a))
  }

  predicate KeepsInAtom(a: Atom) {
    match a
    case VarCode(_, code) => KeepsBlanks(code, false)
    case ForEach(_, _, code) => KeepsBlanks(code, false)
    case IfElse(_, code, branch) => KeepsBlanks(code, false) && KeepsInBranch(branch)
    case Block(code) => KeepsBlanks(code, false)
    case _ => true
  }

  predicate KeepsInBranch(b: Branch) {
    match b
    case NoBranch => true
    case ElseBranch(_, code) => KeepsBlanks(code, false)
    case ElifBranch(_, _, code, branch) => KeepsBlanks(code, false) && KeepsInBranch(branch)
  }

  /** The pieces of raw code in a tree. */
  function RawIn(nodes: seq<Node>): nat {
    if nodes == [] then 0 else RawOf(nodes[0]) + RawIn(nodes[1..])
  }

  function RawOf(n: Node): nat {
    match n
    case RawCodeNode(_) => 1
    case CodeNode(atoms) => RawIn(atoms)
    case VarNode(_, value) => RawOf(value)
    case ForNode(_, _, code) => RawOf(code)
    case IfNode(_, code, branch) => RawOf(code) + RawOfBranch(branch)
    case _ => 0
  }

  function RawOfBranch(b: Option<Node>): nat {
    match b case None => 0 case Some(n) => RawOf(n)
  }

  lemma RawFirst(n: Node, nodes: seq<Node>)
    ensures RawIn([n] + nodes) == RawOf(n) + RawIn(nodes)
  {
    assert ([n] + nodes)[1..] == nodes;
  }

  lemma {:induction false} ProgramLoses(p: Program, afterIf: bool)
    ensures KeepsBlanks(p, afterIf) ==> Nodes(p, afterIf, false) == Nodes(p, afterIf, true)
    ensures KeepsBlanks(p, afterIf) || RawIn(Nodes(p, afterIf, false)) < RawIn(Nodes(p, afterIf, true))
    decreases p
  {
    hide RawIn, RawOf, NodeOf, LeavesOpen, KeepsInAtom;
    match p
    case End =>
    case Then(a, rest) =>
      AtomLoses(a);
      RawFirst(NodeOf(a, false), Nodes(rest, LeavesOpen(a), false));
      RawFirst(NodeOf(a, true), Nodes(rest, LeavesOpen(a), true));
      ProgramLoses(rest, LeavesOpen(a));
      if afterIf && IsBlank(a) {
        BlankLost(a);
        ProgramLoses(rest, true);
      }
  }

  lemma BlankLost(a: Atom)
    requires IsBlank(a)
    ensures !LeavesOpen(a) && RawOf(NodeOf(a, true)) == 1
  {}

  lemma {:induction false} AtomLoses(a: Atom)
    ensures KeepsInAtom(a) ==> NodeOf(a, false) == NodeOf(a, true)
    ensures KeepsInAtom(a) || RawOf(NodeOf(a, false)) < RawOf(NodeOf(a, true))
    decreases a
  {
    hide KeepsBlanks, Nodes, RawIn;
    match a
    case VarCode(_, code) => ProgramLoses(code, false);
    case ForEach(_, _, code) => ProgramLoses(code, false);
    case IfElse(_, code, branch) =>
      ProgramLoses(code, false);
      BranchLoses(branch);
    case Block(code) => ProgramLoses(code, false);
    case _ =>
  }

  lemma {:induction false} BranchLoses(b: Branch)
    ensures KeepsInBranch(b) ==> BranchNode(b, false) == BranchNode(b, true)
    ensures KeepsInBranch(b) || RawOfBranch(BranchNode(b, false)) < RawOfBranch(BranchNode(b, true))
    decreases b
  {
    hide KeepsBlanks, Nodes;
    match b
    case NoBranch =>
    case ElseBranch(_, code) => ProgramLoses(code, false);
    case ElifBranch(_, exp, code, branch) =>
      ProgramLoses(code, false);
      BranchLoses(branch);
      SingleIf(ExpNode(exp), Code(code, false), BranchNode(branch, false));
      SingleIf(ExpNode(exp), Code(code, true), BranchNode(branch, true));
  }

  lemma SingleIf(exp: Node, code: Node, branch: Option<Node>)
    ensures RawOfBranch(Some(CodeNode([IfNode(exp, code, branch)]))) == RawOf(code) + RawOfBranch(branch)
  {
    hide RawOf;
    RawFirst(IfNode(exp, code, branch), []);
    CodeRaw([IfNode(exp, code, branch)]);
    IfRaw(exp, code, branch);
    assert [IfNode(exp, code, branch)] + [] == [IfNode(exp, code, branch)];
  }

  lemma CodeRaw(nodes: seq<Node>)
    ensures RawOf(CodeNode(nodes)) == RawIn(nodes)
  {}

  lemma IfRaw(exp: Node, code: Node, branch: Option<Node>)
    ensures RawOf(IfNode(exp, code, branch)) == RawOf(code) + RawOfBranch(branch)
  {}

  /** The parser gives back the whole tree exactly when no blank raw code follows an `$if`
      without `$else`. */
  lemma ParsesExactly(p: Program)
    requires WellFormed(p)
    ensures ParseAtoms(Tokens(p)) == Parsed(Nodes(p, false, true), []) <==> KeepsBlanks(p, false)
  {
    ProgramParses(p);
    ProgramLoses(p, false);
  }
}
