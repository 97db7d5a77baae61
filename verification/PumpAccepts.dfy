/** What the parser of Pump accepts is nothing but programs. */
module PumpAccepts {
  import opened Text
  import opened PumpParser
  import opened PumpSyntax

  // ---------- Tokens without what the parser ignores ----------

  /** The value of a token counts for code, identifiers and expressions, and but for its first
      character in `$name`. */
  function Plain(t: Token): Token {
    match t.kind
    case Var => Token(Var, "$var ")
    case Elif => Token(Elif, "$elif ")
    case Else => Token(Else, "$else ")
    case For => Token(For, "$for ")
    case If => Token(If, "$if ")
    case Range => Token(Range, "$range ")
    case Id => Token(Id, "$" + AfterDollar(t.value))
    case LiteralDollar => Token(LiteralDollar, "$($)")
    case Dollar => Token(Dollar, "$")
    case Open => OpenToken()
    case Close => CloseToken()
    case Equals => Token(Equals, "=")
    case Dots => Token(Dots, "..")
    case _ => t
  }

  function PlainAll(tokens: seq<Token>): (plain: seq<Token>)
    ensures |plain| == |tokens| && forall i :: 0 <= i < |tokens| ==> plain[i] == Plain(tokens[i])
  {
    seq(|tokens|, i requires 0 <= i < |tokens| => Plain(tokens[i]))
  }

  /** These tokens, but for what is ignored, stand before the rest. */
  predicate Uses(tokens: seq<Token>, rest: seq<Token>, used: seq<Token>) {
    && |tokens| == |used| + |rest| && rest == tokens[|used|..]
    && forall i :: 0 <= i < |used| ==> Plain(tokens[i]) == used[i]
  }

  lemma UsesNone(tokens: seq<Token>)
    ensures Uses(tokens, tokens, [])
  {}

  lemma UsesOne(tokens: seq<Token>)
    requires tokens != []
    ensures Uses(tokens, tokens[1..], [Plain(tokens[0])])
  {}

  lemma UsesBoth(tokens: seq<Token>, middle: seq<Token>, rest: seq<Token>, a: seq<Token>, b: seq<Token>)
    requires Uses(tokens, middle, a) && Uses(middle, rest, b)
    ensures Uses(tokens, rest, a + b)
  {
    hide Plain;
    assert forall i :: |a| <= i < |a| + |b| ==> tokens[i] == middle[i - |a|];
  }

  lemma UsesNext(tokens: seq<Token>, rest: seq<Token>, first: Token, used: seq<Token>)
    requires tokens != [] && Plain(tokens[0]) == first && Uses(tokens[1..], rest, used)
    ensures Uses(tokens, rest, [first] + used)
  {
    hide Plain, Uses;
    UsesOne(tokens);
    UsesBoth(tokens, tokens[1..], rest, [first], used);
  }

  // ---------- Programs from tokens ----------

  function WithBlanks(blanks: seq<string>, p: Program): Program {
    if blanks == [] then p else Then(Raw(blanks[0]), WithBlanks(blanks[1..], p))
  }

  lemma {:induction false} BlanksStand(blanks: seq<string>, p: Program)
    requires Blank(blanks) && WellFormed(p)
    ensures WellFormed(WithBlanks(blanks, p)) && Tokens(WithBlanks(blanks, p)) == Texts(blanks) + Tokens(p)
    ensures Nodes(WithBlanks(blanks, p), true, false) == Nodes(p, true, false)
  {
    if blanks == [] {
      assert [] + Tokens(p) == Tokens(p);
    } else {
      BlanksStand(blanks[1..], p);
      Associate([Token(CodeText, blanks[0])], Texts(blanks[1..]), Tokens(p));
    }
  }

  /** What does not start with a blank is no branch and no blank. */
  predicate NoBlankFirst(tokens: seq<Token>) { tokens == [] || !AllSpace(tokens[0].value) }

  lemma AfterIfSame(p: Program, tokens: seq<Token>, rest: seq<Token>)
    requires Uses(tokens, rest, Tokens(p)) && NoBlankFirst(tokens)
    ensures Nodes(p, true, false) == Nodes(p, false, false)
  {
    hide AllSpace;
    if p.Then? && p.first.Raw? {
      assert Tokens(p)[0] == Token(CodeText, p.first.text);
      assert Plain(tokens[0]) == Token(CodeText, p.first.text);
    }
  }

  lemma {:induction false} BracketedIs(tokens: seq<Token>) returns (p: Program)
    requires Bracketed(tokens).Parsed?
    ensures var o := Bracketed(tokens);
            WellFormed(p) && o.value == Code(p, false) && Uses(tokens, o.rest, BlockTokens(p))
    decreases |tokens|, 3
  {
    hide ParseAtoms, Uses, Nodes, WellFormed;
    p := AtomsAre(tokens[1..]);
    var rest := ParseAtoms(tokens[1..]).rest;
    UsesOne(rest);
    UsesBoth(tokens[1..], rest, rest[1..], Tokens(p), [CloseToken()]);
    UsesNext(tokens, rest[1..], OpenToken(), Tokens(p) + [CloseToken()]);
  }

  /** The branches taken, and the blanks that are skipped where there is none. */
  predicate Branches(tokens: seq<Token>, o: Outcome<Option<Node>>, b: Branch, blanks: seq<string>) {
    && o.Parsed? && WellFormedBranch(b) && Blank(blanks) && o.value == BranchNode(b, false)
    && Uses(tokens, o.rest, BranchTokens(b) + Texts(blanks))
    && (if EndsOpen(b) then NoBlankFirst(o.rest) else blanks == [])
  }

  lemma NoBranchTaken(tokens: seq<Token>)
    requires NoBlankFirst(tokens)
    ensures Branches(tokens, Parsed(None, tokens), NoBranch, [])
  {
    UsesNone(tokens);
  }

  lemma {:induction false} ElseIs(tokens: seq<Token>) returns (b: Branch, blanks: seq<string>)
    requires ParseElse(tokens).Parsed?
    ensures Branches(tokens, ParseElse(tokens), b, blanks)
    decreases |tokens|, 0
  {
    hide Bracketed, Uses, Branches, ParseElif, AllSpace;
    var o := ParseElse(tokens);
    if tokens == [] {
      b, blanks := NoBranch, [];
      NoBranchTaken(tokens);
    } else if tokens[0].kind == Else {
      var code := BracketedIs(tokens[1..]);
      b, blanks := ElseBranch([], code), [];
      ElseTaken(tokens, code);
    } else if tokens[0].kind == Elif {
      b, blanks := ElifIs(tokens);
    } else if AllSpace(tokens[0].value) {
      b, blanks := ElseIs(tokens[1..]);
      b, blanks := BlankFirst(tokens, o, b, blanks);
    } else {
      b, blanks := NoBranch, [];
      NoBranchTaken(tokens);
    }
  }

  lemma ElseTaken(tokens: seq<Token>, code: Program)
    requires HasKind(tokens, Else) && Bracketed(tokens[1..]).Parsed? && WellFormed(code)
    requires Bracketed(tokens[1..]).value == Code(code, false)
    requires Uses(tokens[1..], Bracketed(tokens[1..]).rest, BlockTokens(code))
    ensures Branches(tokens, ParseElse(tokens), ElseBranch([], code), [])
  {
    hide Bracketed, Uses, Code, BlockTokens, WellFormed;
    var used := [Token(Else, "$else ")] + BlockTokens(code);
    UsesNext(tokens, Bracketed(tokens[1..]).rest, Token(Else, "$else "), BlockTokens(code));
    assert BranchTokens(ElseBranch([], code)) + Texts([]) == used;
  }

  /** A blank goes to the branch that follows it, or to the blanks. */
  lemma BlankFirst(tokens: seq<Token>, o: Outcome<Option<Node>>, b: Branch, blanks: seq<string>)
    returns (c: Branch, more: seq<string>)
    requires HasKind(tokens, CodeText) && AllSpace(tokens[0].value) && Branches(tokens[1..], o, b, blanks)
    ensures Branches(tokens, o, c, more)
  {
    hide Uses, AllSpace, Tokens, Code, WellFormed;
    var text := tokens[0].value;
    UsesNext(tokens, o.rest, Token(CodeText, text), BranchTokens(b) + Texts(blanks));
    match b
    case NoBranch =>
      c, more := NoBranch, [text] + blanks;
      assert more[1..] == blanks;
      assert BranchTokens(c) + Texts(more) == [Token(CodeText, text)] + (BranchTokens(b) + Texts(blanks));
    case ElseBranch(skipped, code) =>
      c, more := ElseBranch([text] + skipped, code), blanks;
      assert c.blanks[1..] == skipped;
      assert BranchTokens(c) == [Token(CodeText, text)] + BranchTokens(b);
      assert BranchTokens(c) + Texts(more) == [Token(CodeText, text)] + (BranchTokens(b) + Texts(blanks));
    case ElifBranch(skipped, exp, code, branch) =>
      c, more := ElifBranch([text] + skipped, exp, code, branch), blanks;
      assert c.blanks[1..] == skipped;
      assert BranchTokens(c) == [Token(CodeText, text)] + BranchTokens(b);
      assert BranchTokens(c) + Texts(more) == [Token(CodeText, text)] + (BranchTokens(b) + Texts(blanks));
  }

  lemma {:induction false} ElifIs(tokens: seq<Token>) returns (b: Branch, blanks: seq<string>)
    requires HasKind(tokens, Elif) && ParseElif(tokens).Parsed?
    ensures Branches(tokens, ParseElif(tokens), b, blanks)
    decreases |tokens| - 1, 4
  {
    hide Bracketed, Uses, ParseElse, Branches, Code;
    var exp, body := tokens[1].value, tokens[2..];
    assert tokens[1..][1..] == body;
    var code := BracketedIs(body);
    var rest := Bracketed(body).rest;
    var inner;
    inner, blanks := ElseIs(rest);
    b := ElifBranch([], exp, code, inner);
    ElifTaken(tokens, rest, ParseElse(rest), code, inner, blanks);
  }

  lemma ElifTaken(tokens: seq<Token>, rest: seq<Token>, o: Outcome<Option<Node>>, code: Program, inner: Branch,
                  blanks: seq<string>)
    requires HasKind(tokens, Elif) && HasKind(tokens[1..], CodeText) && WellFormed(code)
    requires Uses(tokens[2..], rest, BlockTokens(code)) && Branches(rest, o, inner, blanks)
    ensures var exp := tokens[1].value;
            Branches(tokens, Parsed(Some(CodeNode([IfNode(ExpNode(exp), Code(code, false), o.value)])), o.rest),
                     ElifBranch([], exp, code, inner), blanks)
  {
    hide Uses, BlockTokens, Code, WellFormed, Texts;
    var exp := tokens[1].value;
    var after := BranchTokens(inner) + Texts(blanks);
    UsesBoth(tokens[2..], rest, o.rest, BlockTokens(code), after);
    assert tokens[1..][1..] == tokens[2..];
    UsesNext(tokens[1..], o.rest, Token(CodeText, exp), BlockTokens(code) + after);
    UsesNext(tokens, o.rest, Token(Elif, "$elif "), [Token(CodeText, exp)] + (BlockTokens(code) + after));
    ElifTokens(exp, code, inner, Texts(blanks));
  }

  lemma ElifTokens(exp: string, code: Program, inner: Branch, more: seq<Token>)
    ensures BranchTokens(ElifBranch([], exp, code, inner)) + more ==
            [Token(Elif, "$elif ")] + ([Token(CodeText, exp)] + (BlockTokens(code) + (BranchTokens(inner) + more)))
  {
    hide BlockTokens;
    var body := BlockTokens(code) + BranchTokens(inner);
    assert BranchTokens(ElifBranch([], exp, code, inner)) == [Token(Elif, "$elif "), Token(CodeText, exp)] + body;
    Associate(BlockTokens(code), BranchTokens(inner), more);
  }

  /** One piece of a program, and the blanks that an `$if` without `$else` skips after it. */
  predicate Piece(tokens: seq<Token>, o: Outcome<Option<Node>>, a: Atom, blanks: seq<string>) {
    && o.Parsed? && WellFormedAtom(a) && Blank(blanks) && o.value == Some(NodeOf(a, false))
    && Uses(tokens, o.rest, AtomTokens(a) + Texts(blanks))
    && (if LeavesOpen(a) then NoBlankFirst(o.rest) else blanks == [])
  }

  lemma PieceWithoutBlanks(tokens: seq<Token>, o: Outcome<Option<Node>>, a: Atom)
    requires o.Parsed? && WellFormedAtom(a) && o.value == Some(NodeOf(a, false)) && !LeavesOpen(a)
    requires Uses(tokens, o.rest, AtomTokens(a))
    ensures Piece(tokens, o, a, [])
  {
    hide Uses, NodeOf, WellFormedAtom, AtomTokens;
    assert AtomTokens(a) + [] == AtomTokens(a);
  }

  lemma {:induction false} AtomIs(tokens: seq<Token>) returns (a: Atom, blanks: seq<string>)
    requires tokens != [] && ParseAtomic(tokens).Parsed? && ParseAtomic(tokens).value.Some?
    ensures Piece(tokens, ParseAtomic(tokens), a, blanks)
    decreases |tokens|, 4
  {
    hide ParseVar, ParseFor, ParseIf, ParseRange, Bracketed, Piece, Uses;
    var o, head, tail := ParseAtomic(tokens), tokens[0], tokens[1..];
    blanks := [];
    match head.kind
    case Var =>
      a := VarIs(tail);
      UsesNext(tokens, o.rest, Token(Var, "$var "), AtomTokens(a)[1..]);
      assert AtomTokens(a) == [Token(Var, "$var ")] + AtomTokens(a)[1..];
      PieceWithoutBlanks(tokens, o, a);
    case For =>
      a := ForIs(tail);
      UsesNext(tokens, o.rest, Token(For, "$for "), AtomTokens(a)[1..]);
      assert AtomTokens(a) == [Token(For, "$for ")] + AtomTokens(a)[1..];
      PieceWithoutBlanks(tokens, o, a);
    case If => a, blanks := IfIs(tokens);
    case Open =>
      var p := BracketedIs(tokens);
      a := Block(p);
      PieceWithoutBlanks(tokens, o, a);
    case _ => a := SimpleIs(tokens);
  }

  lemma RangeIs(tokens: seq<Token>) returns (a: Atom)
    requires HasKind(tokens, Range) && ParseRange(tokens[1..]).Parsed?
    ensures var o := ParseRange(tokens[1..]);
            a.RangeOf? && o.value == Some(NodeOf(a, false)) && Uses(tokens, o.rest, AtomTokens(a))
  {
    hide Uses;
    var tail := tokens[1..];
    var id, exp1, exp2, rest := tail[0].value, tail[1].value, tail[3].value, tail[4..];
    a := RangeOf(id, exp1, exp2);
    assert tail[1..][1..] == tail[2..] && tail[2..][1..] == tail[3..] && tail[3..][1..] == rest;
    UsesOne(tail[3..]);
    UsesNext(tail[2..], rest, Token(Dots, ".."), [Token(Exp, exp2)]);
    UsesNext(tail[1..], rest, Token(Exp, exp1), [Token(Dots, "..")] + [Token(Exp, exp2)]);
    UsesNext(tail, rest, Token(Identifier, id), [Token(Exp, exp1)] + ([Token(Dots, "..")] + [Token(Exp, exp2)]));
    UsesNext(tokens, rest, Token(Range, "$range "),
             [Token(Identifier, id)] + ([Token(Exp, exp1)] + ([Token(Dots, "..")] + [Token(Exp, exp2)])));
    assert AtomTokens(a) == [Token(Range, "$range ")] +
           ([Token(Identifier, id)] + ([Token(Exp, exp1)] + ([Token(Dots, "..")] + [Token(Exp, exp2)])));
  }

  lemma SimpleIs(tokens: seq<Token>) returns (a: Atom)
    requires tokens != [] && ParseAtomic(tokens).Parsed? && ParseAtomic(tokens).value.Some?
    requires tokens[0].kind !in {Var, For, If, Open}
    ensures Piece(tokens, ParseAtomic(tokens), a, [])
  {
    hide Piece, ParseRange;
    var o, head, tail := ParseAtomic(tokens), tokens[0], tokens[1..];
    match head.kind {
    case CodeText => a := Raw(head.value);
    case Range => a := RangeIs(tokens);
    case Id => a := Name(AfterDollar(head.value));
    case LiteralDollar => a := DollarSign;
    case Dollar =>
      a := Expression(tail[0].value);
      assert tokens[1] == tail[0] && tail[1..] == tokens[2..];
    }
    PieceWithoutBlanks(tokens, o, a);
  }

  lemma {:induction false} VarIs(tail: seq<Token>) returns (a: Atom)
    requires ParseVar(tail).Parsed?
    ensures var o := ParseVar(tail);
            && WellFormedAtom(a) && o.value == Some(NodeOf(a, false)) && (a.VarExp? || a.VarCode?)
            && Uses(tail, o.rest, AtomTokens(a)[1..])
    decreases |tail|, 4
  {
    hide Bracketed, Uses, Code, BlockTokens, Nodes;
    var id, o := tail[0].value, ParseVar(tail);
    assert tail[1..][1..] == tail[2..] && tail[2..][1..] == tail[3..];
    if tail[2].kind == Exp {
      a := VarExp(id, tail[2].value);
      UsesOne(tail[2..]);
      UsesNext(tail[1..], o.rest, Token(Equals, "="), [Token(Exp, tail[2].value)]);
      UsesNext(tail, o.rest, Token(Identifier, id), [Token(Equals, "=")] + [Token(Exp, tail[2].value)]);
      assert AtomTokens(a)[1..] == [Token(Identifier, id)] + ([Token(Equals, "=")] + [Token(Exp, tail[2].value)]);
    } else {
      var code := BracketedIs(tail[2..]);
      a := VarCode(id, code);
      UsesNext(tail[1..], o.rest, Token(Equals, "="), BlockTokens(code));
      UsesNext(tail, o.rest, Token(Identifier, id), [Token(Equals, "=")] + BlockTokens(code));
      assert AtomTokens(a)[1..] == [Token(Identifier, id)] + ([Token(Equals, "=")] + BlockTokens(code));
    }
  }

  lemma {:induction false} ForIs(tail: seq<Token>) returns (a: Atom)
    requires ParseFor(tail).Parsed?
    ensures var o := ParseFor(tail);
            && WellFormedAtom(a) && o.value == Some(NodeOf(a, false)) && a.ForEach?
            && Uses(tail, o.rest, AtomTokens(a)[1..])
    decreases |tail|, 4
  {
    hide Bracketed, Uses, Code, BlockTokens, Nodes;
    var id, o := tail[0].value, ParseFor(tail);
    if tail[1].kind == CodeText {
      var sep := tail[1].value;
      assert tail[1..][1..] == tail[2..];
      var code := BracketedIs(tail[2..]);
      a := ForEach(id, Some(sep), code);
      UsesNext(tail[1..], o.rest, Token(CodeText, sep), BlockTokens(code));
      UsesNext(tail, o.rest, Token(Identifier, id), [Token(CodeText, sep)] + BlockTokens(code));
      assert AtomTokens(a)[1..] == [Token(Identifier, id)] + ([Token(CodeText, sep)] + BlockTokens(code));
    } else {
      var code := BracketedIs(tail[1..]);
      a := ForEach(id, None, code);
      UsesNext(tail, o.rest, Token(Identifier, id), BlockTokens(code));
      assert AtomTokens(a)[1..] == [Token(Identifier, id)] + BlockTokens(code);
    }
  }

  lemma {:induction false} IfIs(tokens: seq<Token>) returns (a: Atom, blanks: seq<string>)
    requires HasKind(tokens, If) && ParseIf(tokens[1..]).Parsed?
    ensures Piece(tokens, ParseIf(tokens[1..]), a, blanks)
    decreases |tokens| - 1, 4
  {
    hide Bracketed, Uses, ParseElse, Branches, Code, Piece;
    var exp, body := tokens[1].value, tokens[2..];
    assert tokens[1..][1..] == body;
    var code := BracketedIs(body);
    var rest := Bracketed(body).rest;
    var branch;
    branch, blanks := ElseIs(rest);
    a := IfElse(exp, code, branch);
    IfTaken(tokens, rest, ParseElse(rest), code, branch, blanks);
  }

  lemma IfTaken(tokens: seq<Token>, rest: seq<Token>, o: Outcome<Option<Node>>, code: Program, branch: Branch,
                blanks: seq<string>)
    requires HasKind(tokens, If) && HasKind(tokens[1..], CodeText) && WellFormed(code)
    requires Uses(tokens[2..], rest, BlockTokens(code)) && Branches(rest, o, branch, blanks)
    ensures var exp := tokens[1].value;
            Piece(tokens, Parsed(Some(IfNode(ExpNode(exp), Code(code, false), o.value)), o.rest),
                  IfElse(exp, code, branch), blanks)
  {
    hide Uses, BlockTokens, Code, WellFormed, Texts;
    var exp := tokens[1].value;
    var after := BranchTokens(branch) + Texts(blanks);
    UsesBoth(tokens[2..], rest, o.rest, BlockTokens(code), after);
    assert tokens[1..][1..] == tokens[2..];
    UsesNext(tokens[1..], o.rest, Token(CodeText, exp), BlockTokens(code) + after);
    UsesNext(tokens, o.rest, Token(If, "$if "), [Token(CodeText, exp)] + (BlockTokens(code) + after));
    IfTokens(exp, code, branch, Texts(blanks));
  }

  lemma IfTokens(exp: string, code: Program, branch: Branch, more: seq<Token>)
    ensures AtomTokens(IfElse(exp, code, branch)) + more ==
            [Token(If, "$if ")] + ([Token(CodeText, exp)] + (BlockTokens(code) + (BranchTokens(branch) + more)))
  {
    hide BlockTokens;
    Associate(BlockTokens(code), BranchTokens(branch), more);
  }

  /** Whatever the parser takes are the tokens of a program, and it gives the nodes of that. */
  lemma {:induction false} AtomsAre(tokens: seq<Token>) returns (p: Program)
    requires ParseAtoms(tokens).Parsed?
    ensures var o := ParseAtoms(tokens);
            WellFormed(p) && o.value == Nodes(p, false, false) && Uses(tokens, o.rest, Tokens(p))
    decreases |tokens|, 5
  {
    hide ParseAtomic, Uses, Piece;
    if tokens == [] || ParseAtomic(tokens).value.None? {
      p := End;
      UsesNone(tokens);
    } else {
      var first := ParseAtomic(tokens);
      var a, blanks := AtomIs(tokens);
      var more := AtomsAre(first.rest);
      p := AfterPiece(tokens, first, a, blanks, ParseAtoms(first.rest), more);
    }
  }

  lemma AfterPiece(tokens: seq<Token>, first: Outcome<Option<Node>>, a: Atom, blanks: seq<string>,
                   o: Outcome<seq<Node>>, more: Program) returns (p: Program)
    requires Piece(tokens, first, a, blanks) && o.Parsed?
    requires WellFormed(more) && o.value == Nodes(more, false, false) && Uses(first.rest, o.rest, Tokens(more))
    ensures WellFormed(p) && [first.value.value] + o.value == Nodes(p, false, false) && Uses(tokens, o.rest, Tokens(p))
  {
    hide Uses, NodeOf, WellFormedAtom, AtomTokens, LeavesOpen, NoBlankFirst, Texts;
    BlanksStand(blanks, more);
    var rest := WithBlanks(blanks, more);
    p := Then(a, rest);
    UsesBoth(tokens, first.rest, o.rest, AtomTokens(a) + Texts(blanks), Tokens(more));
    Associate(AtomTokens(a), Texts(blanks), Tokens(more));
    if LeavesOpen(a) {
      AfterIfSame(more, first.rest, o.rest);
    } else {
      assert rest == more;
    }
    assert !IsBlank(a) || Nodes(p, false, false) == [NodeOf(a, false)] + Nodes(rest, LeavesOpen(a), false);
  }

  /** The parser takes a list of tokens as a whole if and only if it is that of a program, and gives
      its nodes. */
  lemma AcceptsExactly(tokens: seq<Token>, nodes: seq<Node>)
    requires PlainAll(tokens) == tokens
    ensures ParseAtoms(tokens) == Parsed(nodes, []) <==>
            exists p :: WellFormed(p) && Tokens(p) == tokens && Nodes(p, false, false) == nodes
  {
    hide ParseAtoms, Tokens, WellFormed, Nodes, Plain;
    if ParseAtoms(tokens) == Parsed(nodes, []) {
      var p := AtomsAre(tokens);
      assert Tokens(p) == tokens;
    }
    if p :| WellFormed(p) && Tokens(p) == tokens && Nodes(p, false, false) == nodes {
      ProgramParses(p);
    }
  }
}
