/** The interpreter of Pump: nodes are run in an environment of variables and ranges and
    append to an output. */
module PumpInterp {
  import opened Text
  import opened Numbers
  import opened PumpParser

  // ---------- Values ----------

  /** A value of a meta expression; of any other type only what is used of it is kept. */
  datatype Value =
    | Number(n: int)
    | Text(s: string)
    | Other(shown: string, truth: bool, whole: Option<int>)

  function Show(v: Value): string {
    match v case Number(n) => Print(n) case Text(s) => s case Other(shown, _, _) => shown
  }

  predicate Truth(v: Value) {
    match v case Number(n) => n != 0 case Text(s) => s != "" case Other(_, truth, _) => truth
  }

  function StripEnd(s: string): string {
    if s != "" && IsSpace(s[|s| - 1]) then StripEnd(s[..|s| - 1]) else s
  }

  function Strip(s: string): string { SkipSpaces(StripEnd(s)) }

  /** `int` of a text: a sign and digits, with white space around them. */
  function WholeText(s: string): Option<int> {
    var t := Strip(s);
    var signed := t != "" && (t[0] == '-' || t[0] == '+');
    var digits := if signed then t[1..] else t;
    if digits == "" || !AllDigits(digits) then None
    else Some(if signed && t[0] == '-' then -(Numbers.Value(digits) as int) else Numbers.Value(digits))
  }

  function ToInt(v: Value): Option<int> {
    match v case Number(n) => Some(n) case Text(s) => WholeText(s) case Other(_, _, whole) => whole
  }

  /** A text that looks like an integer is stored as one: if it is what the integer shows as. */
  function Stored(s: string): Value {
    match Integer(s)
    case Some(n) => if Print(n) == s then Number(n) else Text(s)
    case None => Text(s)
  }

  /** Storing keeps the text, and makes integers of exactly the texts that show integers. */
  lemma StoredShows(s: string)
    ensures Show(Stored(s)) == s
    ensures Stored(s).Number? <==> exists n :: Print(n) == s
  {
    if n :| Print(n) == s {
      PrintReads(n);
    }
  }

  // ---------- Environments ----------

  datatype Interval = Interval(id: string, lower: int, upper: int)

  /** The newest binding comes first. */
  datatype Scope = Scope(variables: seq<(string, Value)>, ranges: seq<Interval>) {
    function PushVariable(id: string, v: Value): Scope { this.(variables := [(id, v)] + variables) }

    function PushRange(id: string, lower: int, upper: int): Scope {
      this.(ranges := [Interval(id, lower, upper)] + ranges)
    }

    /** The bindings that a lookup finds. */
    function Visible(): map<string, Value> { VisibleOf(variables) }
  }

  function VisibleOf(variables: seq<(string, Value)>): map<string, Value> {
    if variables == [] then map[] else VisibleOf(variables[1..])[variables[0].0 := variables[0].1]
  }

  function RangeOf(ranges: seq<Interval>, id: string): Option<Interval> {
    if ranges == [] then None
    else if ranges[0].id == id then Some(ranges[0])
    else RangeOf(ranges[1..], id)
  }

  /** Python's evaluation of an expression, in which identifiers are looked up; it can fail. */
  type Evaluator = (map<string, Value>, string) -> Option<Value>

  // ---------- The meaning of a program ----------

  /** The scope afterwards and the text appended, nothing if the program exits. */
  datatype Effect = Effect(scope: Scope, output: string)

  function RunNode(eval: Evaluator, s: Scope, node: Node): Option<Effect>
    decreases node, 1, 0
  {
    match node
    case VarNode(id, value) =>
      (match RunNode(eval, s, value)
       case None => None
       case Some(e) => Some(Effect(s.PushVariable(Strip(id), Stored(e.output)), "")))
    case RangeNode(id, exp1, exp2) =>
      var lower, upper := EvalInt(eval, s, exp1), EvalInt(eval, s, exp2);
      if lower.None? || upper.None? then None
      else Some(Effect(s.PushRange(Strip(id), lower.value, upper.value), ""))
    case ForNode(id, sep, code) =>
      (match RangeOf(s.ranges, Strip(id))
       case None => None
       case Some(r) => Inside(s, RunFrom(eval, s, Strip(id), Separator(sep), code, r.lower, r.upper)))
    case RawCodeNode(text) => Some(Effect(s, text))
    case IfNode(exp, thenBranch, elseBranch) =>
      (match EvalExp(eval, s, exp)
       case None => None
       case Some(v) =>
         if Truth(v) then Inside(s, RunCode(eval, s, thenBranch))
         else if elseBranch.Some? then Inside(s, RunCode(eval, s, elseBranch.value))
         else Some(Effect(s, "")))
    case ExpNode(_) =>
      (match EvalExp(eval, s, node) case None => None case Some(v) => Some(Effect(s, Show(v))))
    case LiteralDollarNode => Some(Effect(s, "$"))
    case CodeNode(_) => Inside(s, RunCode(eval, s, node))
  }

  function EvalExp(eval: Evaluator, s: Scope, exp: Node): Option<Value> {
    if exp.ExpNode? then eval(s.Visible(), exp.text) else None
  }

  function EvalInt(eval: Evaluator, s: Scope, exp: Node): Option<int> {
    match EvalExp(eval, s, exp) case None => None case Some(v) => ToInt(v)
  }

  function Separator(sep: Option<string>): string { match sep case None => "" case Some(text) => text }

  /** What is run in a copy of the scope only gives its text. */
  function Inside(s: Scope, e: Option<Effect>): Option<Effect> {
    match e case None => None case Some(e) => Some(Effect(s, e.output))
  }

  /** The text of the code for i up to upper, with the separator between. */
  function RunFrom(eval: Evaluator, s: Scope, id: string, sep: string, code: Node, i: int, upper: int): Option<Effect>
    decreases code, 2, upper - i + 1
  {
    if i > upper then Some(Effect(s, ""))
    else
      match RunCode(eval, s.PushVariable(id, Number(i)), code)
      case None => None
      case Some(e) =>
        match RunFrom(eval, s, id, sep, code, i + 1, upper)
        case None => None
        case Some(rest) => Some(Effect(s, e.output + ((if i != upper then sep else "") + rest.output)))
  }

  function RunCode(eval: Evaluator, s: Scope, code: Node): Option<Effect>
    decreases code, 0, 0
  {
    if code.CodeNode? then RunAtoms(eval, s, code.atoms) else None
  }

  function RunAtoms(eval: Evaluator, s: Scope, atoms: seq<Node>): Option<Effect>
    decreases atoms, 0, 0
  {
    if atoms == [] then Some(Effect(s, ""))
    else
      match RunNode(eval, s, atoms[0])
      case None => None
      case Some(e) =>
        match RunAtoms(eval, e.scope, atoms[1..])
        case None => None
        case Some(rest) => Some(Effect(rest.scope, e.output + rest.output))
  }

  // ---------- The interpreter ----------

  class Env {
    var variables: seq<(string, Value)>
    var ranges: seq<Interval>

    constructor ()
      ensures Value() == Scope([], [])
    {
      variables, ranges := [], [];
    }

    function Value(): Scope
      reads this
    {
      Scope(variables, ranges)
    }

    method Clone() returns (clone: Env)
      ensures fresh(clone) && clone.Value() == Value()
    {
      clone := new Env();
      clone.variables := variables;
      clone.ranges := ranges;
    }

    method PushVariable(id: string, value: string)
      modifies this
      ensures Value() == old(Value()).PushVariable(id, Stored(value))
    {
      variables := [(id, Stored(value))] + variables;
    }

    method PushNumber(id: string, n: int)
      modifies this
      ensures Value() == old(Value()).PushVariable(id, Number(n))
    {
      variables := [(id, Number(n))] + variables;
    }

    method PushRange(id: string, lower: int, upper: int)
      modifies this
      ensures Value() == old(Value()).PushRange(id, lower, upper)
    {
      ranges := [Interval(id, lower, upper)] + ranges;
    }

    method GetValue(identifier: string) returns (value: Option<Value>)
      ensures value == if identifier in Value().Visible() then Some(Value().Visible()[identifier]) else None
    {
      for i := 0 to |variables|
        invariant var all, left := VisibleOf(variables), VisibleOf(variables[i..]);
                  (identifier in all) == (identifier in left) &&
                  (identifier in all ==> all[identifier] == left[identifier])
      {
        assert variables[i..][1..] == variables[i + 1..];
        if variables[i].0 == identifier {
          return Some(variables[i].1);
        }
      }
      value := None;
    }

    method GetRange(identifier: string) returns (range: Option<Interval>)
      ensures range == RangeOf(ranges, identifier)
    {
      for i := 0 to |ranges|
        invariant RangeOf(ranges, identifier) == RangeOf(ranges[i..], identifier)
      {
        assert ranges[i..][1..] == ranges[i + 1..];
        if ranges[i].id == identifier {
          return Some(ranges[i]);
        }
      }
      range := None;
    }
  }

  class Output {
    var text: string

    constructor ()
      ensures text == ""
    {
      text := "";
    }

    method Append(s: string)
      modifies this
      ensures text == old(text) + s
    {
      text := text + s;
    }
  }

  /** The program goes on exactly if the meaning is defined, with its scope and its text. */
  ghost predicate Realizes(e: Option<Effect>, ok: bool, scope: Scope, before: string, after: string) {
    match e
    case None => !ok
    case Some(e) => ok && scope == e.scope && after == before + e.output
  }

  method RunAtomicCode(eval: Evaluator, env: Env, node: Node, output: Output) returns (ok: bool)
    modifies env, output
    ensures Realizes(RunNode(eval, old(env.Value()), node), ok, env.Value(), old(output.text), output.text)
    decreases node, 1, 0
  {
    hide RunCode, RunFrom, EvalExp, Strip, Stored, Show, Truth, ToInt;
    ghost var before := output.text;
    assert before + "" == before;
    match node
    case VarNode(identifier, value) =>
      var result := new Output();
      var inner := env.Clone();
      ok := RunAtomicCode(eval, inner, value, result);
      if ok {
        ghost var e := RunNode(eval, env.Value(), value).value;
        assert "" + e.output == e.output;
        env.PushVariable(Strip(identifier), result.text);
      }
    case RangeNode(identifier, exp1, exp2) =>
      var lower, upper := EvalInt(eval, env.Value(), exp1), EvalInt(eval, env.Value(), exp2);
      ok := lower.Some? && upper.Some?;
      if ok {
        env.PushRange(Strip(identifier), lower.value, upper.value);
      }
    case ForNode(identifier, sep, code) =>
      var range := env.GetRange(Strip(identifier));
      ok := range.Some?;
      if ok {
        ok := RunLoop(eval, env, Strip(identifier), Separator(sep), code, range.value.lower, range.value.upper, output);
      }
    case RawCodeNode(text) =>
      output.Append(text);
      ok := true;
    case IfNode(exp, thenBranch, elseBranch) =>
      var cond := EvalExp(eval, env.Value(), exp);
      ok := cond.Some?;
      if ok {
        var inner := env.Clone();
        if Truth(cond.value) {
          ok := RunCodeNode(eval, inner, thenBranch, output);
        } else if elseBranch.Some? {
          ok := RunCodeNode(eval, inner, elseBranch.value, output);
        }
      }
    case ExpNode(_) =>
      var value := EvalExp(eval, env.Value(), node);
      ok := value.Some?;
      if ok {
        output.Append(Show(value.value));
      }
    case LiteralDollarNode =>
      output.Append("$");
      ok := true;
    case CodeNode(_) =>
      var inner := env.Clone();
      ok := RunCodeNode(eval, inner, node, output);
  }

  /** The loop of `$for`. */
  method RunLoop(eval: Evaluator, env: Env, id: string, sep: string, code: Node, lower: int, upper: int, output: Output)
    returns (ok: bool)
    modifies output
    ensures Realizes(RunFrom(eval, env.Value(), id, sep, code, lower, upper), ok,
                     env.Value(), old(output.text), output.text)
    decreases code, 2, 0
  {
    hide RunCode, RunFrom;
    ghost var s := env.Value();
    ghost var goal := Appended(output.text, RunFrom(eval, s, id, sep, code, lower, upper));
    var i := lower;
    while i <= upper
      invariant env.Value() == s
      invariant goal == Appended(output.text, RunFrom(eval, s, id, sep, code, i, upper))
      decreases upper - i + 1
    {
      LoopStep(eval, s, id, sep, code, i, upper, output.text);
      var newEnv := env.Clone();
      newEnv.PushNumber(id, i);
      ok := RunCodeNode(eval, newEnv, code, output);
      if !ok {
        AppendedNone(goal, old(output.text), RunFrom(eval, s, id, sep, code, lower, upper));
        return;
      }
      if i != upper {
        output.Append(sep);
      }
      i := i + 1;
    }
    LoopEnd(eval, s, id, sep, code, i, upper, output.text);
    RunFromScope(eval, s, id, sep, code, lower, upper);
    ok := true;
  }

  function Appended(before: string, e: Option<Effect>): Option<string> {
    match e case None => None case Some(e) => Some(before + e.output)
  }

  lemma AppendedNone(goal: Option<string>, before: string, e: Option<Effect>)
    requires goal == Appended(before, e) && goal.None?
    ensures e.None?
  {}

  lemma LoopStep(eval: Evaluator, s: Scope, id: string, sep: string, code: Node, i: int, upper: int, before: string)
    requires i <= upper
    ensures Appended(before, RunFrom(eval, s, id, sep, code, i, upper)) ==
            match RunCode(eval, s.PushVariable(id, Number(i)), code)
            case None => None
            case Some(e) =>
              var text := before + e.output;
              Appended(if i != upper then text + sep else text, RunFrom(eval, s, id, sep, code, i + 1, upper))
  {
    hide RunCode;
    var e, rest := RunCode(eval, s.PushVariable(id, Number(i)), code), RunFrom(eval, s, id, sep, code, i + 1, upper);
    if e.Some? && rest.Some? {
      Regroup(before, e.value.output, sep, rest.value.output);
    }
  }

  lemma Regroup(a: string, b: string, c: string, d: string)
    ensures a + (b + (c + d)) == ((a + b) + c) + d
    ensures a + (b + ("" + d)) == (a + b) + d
  {}

  lemma LoopEnd(eval: Evaluator, s: Scope, id: string, sep: string, code: Node, i: int, upper: int, before: string)
    requires i > upper
    ensures Appended(before, RunFrom(eval, s, id, sep, code, i, upper)) == Some(before)
  {
    assert before + "" == before;
  }

  lemma RunFromScope(eval: Evaluator, s: Scope, id: string, sep: string, code: Node, i: int, upper: int)
    ensures var e := RunFrom(eval, s, id, sep, code, i, upper); e.Some? ==> e.value.scope == s
  {}

  method RunCodeNode(eval: Evaluator, env: Env, codeNode: Node, output: Output) returns (ok: bool)
    modifies env, output
    ensures Realizes(RunCode(eval, old(env.Value()), codeNode), ok, env.Value(), old(output.text), output.text)
    decreases codeNode, 0, 0
  {
    if !codeNode.CodeNode? {
      return false;
    }
    hide RunAtoms, RunNode;
    ghost var atoms := codeNode.atoms;
    ghost var goal := After(output.text, RunAtoms(eval, env.Value(), atoms));
    for i := 0 to |codeNode.atoms|
      invariant goal == After(output.text, RunAtoms(eval, env.Value(), atoms[i..]))
    {
      AtomsStep(eval, env.Value(), atoms, i, output.text);
      ok := RunAtomicCode(eval, env, codeNode.atoms[i], output);
      if !ok {
        return;
      }
    }
    AtomsEnd(eval, env.Value(), atoms, output.text);
    ok := true;
  }

  /** The scope and the whole text. */
  function After(before: string, e: Option<Effect>): Option<Effect> {
    match e case None => None case Some(e) => Some(Effect(e.scope, before + e.output))
  }

  lemma AtomsStep(eval: Evaluator, s: Scope, atoms: seq<Node>, i: nat, before: string)
    requires i < |atoms|
    ensures After(before, RunAtoms(eval, s, atoms[i..])) ==
            match RunNode(eval, s, atoms[i])
            case None => None
            case Some(e) => After(before + e.output, RunAtoms(eval, e.scope, atoms[i + 1..]))
  {
    hide RunNode;
    assert atoms[i..][1..] == atoms[i + 1..];
    var e := RunNode(eval, s, atoms[i]);
    if e.Some? {
      var rest := RunAtoms(eval, e.value.scope, atoms[i + 1..]);
      if rest.Some? {
        Associate(before, e.value.output, rest.value.output);
      }
    }
  }

  lemma AtomsEnd(eval: Evaluator, s: Scope, atoms: seq<Node>, before: string)
    ensures After(before, RunAtoms(eval, s, atoms[|atoms|..])) == Some(Effect(s, before))
  {
    assert before + "" == before;
  }

  // ---------- Scoping ----------

  /** The variables and ranges that code itself binds, the newest first; those bound in nested
      code are not among them. */
  function BoundVariables(atoms: seq<Node>): seq<string> {
    if atoms == [] then []
    else BoundVariables(atoms[1..]) + if atoms[0].VarNode? then [Strip(atoms[0].identifier)] else []
  }

  function BoundRanges(atoms: seq<Node>): seq<string> {
    if atoms == [] then []
    else BoundRanges(atoms[1..]) + if atoms[0].RangeNode? then [Strip(atoms[0].identifier)] else []
  }

  function VariableNames(variables: seq<(string, Value)>): seq<string> {
    if variables == [] then [] else [variables[0].0] + VariableNames(variables[1..])
  }

  function RangeNames(ranges: seq<Interval>): seq<string> {
    if ranges == [] then [] else [ranges[0].id] + RangeNames(ranges[1..])
  }

  /** t is s with new bindings of these variables and ranges in front. */
  ghost predicate Extends(s: Scope, t: Scope, variables: seq<string>, ranges: seq<string>) {
    exists vs, rs ::
      && t == Scope(vs + s.variables, rs + s.ranges)
      && VariableNames(vs) == variables && RangeNames(rs) == ranges
  }

  lemma NoVariableNames(variables: seq<(string, Value)>)
    ensures VariableNames(variables) == [] <==> variables == []
  {}

  lemma NoNames(ranges: seq<Interval>)
    ensures RangeNames(ranges) == [] <==> ranges == []
  {}

  lemma ExtendsNothing(s: Scope)
    ensures Extends(s, s, [], [])
  {
    var vs, rs := [], [];
    NoVariableNames(vs);
    NoNames(rs);
    assert s == Scope(vs + s.variables, rs + s.ranges) && VariableNames(vs) == [] && RangeNames(rs) == [];
  }

  lemma {:induction false} VariableNamesOfTwo(a: seq<(string, Value)>, b: seq<(string, Value)>)
    ensures VariableNames(a + b) == VariableNames(a) + VariableNames(b)
  {
    if a == [] {
      assert a + b == b;
    } else {
      assert (a + b)[1..] == a[1..] + b;
      VariableNamesOfTwo(a[1..], b);
    }
  }

  lemma {:induction false} RangeNamesOfTwo(a: seq<Interval>, b: seq<Interval>)
    ensures RangeNames(a + b) == RangeNames(a) + RangeNames(b)
  {
    if a == [] {
      assert a + b == b;
    } else {
      assert (a + b)[1..] == a[1..] + b;
      RangeNamesOfTwo(a[1..], b);
    }
  }

  lemma ExtendsAgain(s: Scope, t: Scope, u: Scope, vs: seq<string>, rs: seq<string>, vs': seq<string>, rs': seq<string>)
    requires Extends(s, t, vs, rs) && Extends(t, u, vs', rs')
    ensures Extends(s, u, vs' + vs, rs' + rs)
  {
    var v, r :| t == Scope(v + s.variables, r + s.ranges) && VariableNames(v) == vs && RangeNames(r) == rs;
    var v', r' :| u == Scope(v' + t.variables, r' + t.ranges) && VariableNames(v') == vs' && RangeNames(r') == rs';
    VariableNamesOfTwo(v', v);
    RangeNamesOfTwo(r', r);
    Associate(v', v, s.variables);
    Associate(r', r, s.ranges);
    assert u == Scope((v' + v) + s.variables, (r' + r) + s.ranges);
  }

  lemma NodeScope(eval: Evaluator, s: Scope, node: Node)
    ensures var e := RunNode(eval, s, node);
            e.Some? ==>
              Extends(s, e.value.scope, if node.VarNode? then [Strip(node.identifier)] else [],
                      if node.RangeNode? then [Strip(node.identifier)] else [])
  {
    hide RunCode, RunFrom, EvalInt, Strip, Stored, Extends;
    ExtendsNothing(s);
    var e := RunNode(eval, s, node);
    if e.Some? && node.VarNode? {
      PushExtends(s, Strip(node.identifier), Stored(RunNode(eval, s, node.value).value.output));
    } else if e.Some? && node.RangeNode? {
      PushRangeExtends(s, Strip(node.identifier), EvalInt(eval, s, node.exp1).value, EvalInt(eval, s, node.exp2).value);
    }
  }

  lemma PushExtends(s: Scope, id: string, v: Value)
    ensures Extends(s, s.PushVariable(id, v), [id], [])
  {
    var vs, rs := [(id, v)], [];
    NoNames(rs);
    assert vs[1..] == [];
    assert VariableNames(vs) == [id];
    assert s.PushVariable(id, v) == Scope(vs + s.variables, rs + s.ranges);
  }

  lemma PushRangeExtends(s: Scope, id: string, lower: int, upper: int)
    ensures Extends(s, s.PushRange(id, lower, upper), [], [id])
  {
    var vs, rs := [], [Interval(id, lower, upper)];
    NoVariableNames(vs);
    assert rs[1..] == [];
    assert RangeNames(rs) == [id];
    assert s.PushRange(id, lower, upper) == Scope(vs + s.variables, rs + s.ranges);
  }

  /** Code adds the bindings of its own `$var`s and `$range`s and changes no other: what is bound
      in nested code, loops and branches is gone after them. */
  lemma {:induction false} AtomsScope(eval: Evaluator, s: Scope, atoms: seq<Node>)
    ensures var e := RunAtoms(eval, s, atoms);
            e.Some? ==> Extends(s, e.value.scope, BoundVariables(atoms), BoundRanges(atoms))
    decreases |atoms|
  {
    hide RunNode, Extends, Strip;
    if atoms == [] {
      ExtendsNothing(s);
    } else {
      NodeScope(eval, s, atoms[0]);
      var first := RunNode(eval, s, atoms[0]);
      if first.Some? {
        AtomsScope(eval, first.value.scope, atoms[1..]);
        var rest := RunAtoms(eval, first.value.scope, atoms[1..]);
        if rest.Some? {
          ExtendsAgain(s, first.value.scope, rest.value.scope,
                       if atoms[0].VarNode? then [Strip(atoms[0].identifier)] else [],
                       if atoms[0].RangeNode? then [Strip(atoms[0].identifier)] else [],
                       BoundVariables(atoms[1..]), BoundRanges(atoms[1..]));
        }
      }
    }
  }

  // ---------- Loops ----------

  predicate AllRun(eval: Evaluator, s: Scope, id: string, code: Node, lower: int, upper: int) {
    forall i :: lower <= i <= upper ==> RunCode(eval, s.PushVariable(id, Number(i)), code).Some?
  }

  /** The texts of the code for each value of the variable. */
  function Texts(eval: Evaluator, s: Scope, id: string, code: Node, lower: int, upper: int): (texts: seq<string>)
    requires AllRun(eval, s, id, code, lower, upper)
    ensures |texts| == if lower > upper then 0 else upper - lower + 1
    ensures forall k :: 0 <= k < |texts| ==>
              texts[k] == RunCode(eval, s.PushVariable(id, Number(lower + k)), code).value.output
  {
    seq(if lower > upper then 0 else upper - lower + 1,
        k requires 0 <= k <= upper - lower => RunCode(eval, s.PushVariable(id, Number(lower + k)), code).value.output)
  }

  function Join(sep: string, texts: seq<string>): string {
    if texts == [] then ""
    else if |texts| == 1 then texts[0]
    else texts[0] + (sep + Join(sep, texts[1..]))
  }

  /** `$for` gives the texts of its code for the values of the range, joined by the separator;
      it exits exactly if the code exits for one of them. */
  lemma {:induction false} LoopIsJoin(eval: Evaluator, s: Scope, id: string, sep: string, code: Node,
                                      lower: int, upper: int)
    ensures RunFrom(eval, s, id, sep, code, lower, upper) ==
            if AllRun(eval, s, id, code, lower, upper)
            then Some(Effect(s, Join(sep, Texts(eval, s, id, code, lower, upper))))
            else None
    decreases upper - lower + 1
  {
    hide RunCode, Join;
    if lower > upper {
      JoinNone(sep);
    } else {
      LoopIsJoin(eval, s, id, sep, code, lower + 1, upper);
      var e := RunCode(eval, s.PushVariable(id, Number(lower)), code);
      FirstRuns(eval, s, id, code, lower, upper);
      if AllRun(eval, s, id, code, lower, upper) {
        var texts, rest := Texts(eval, s, id, code, lower, upper), Texts(eval, s, id, code, lower + 1, upper);
        assert texts[1..] == rest;
        JoinFirst(sep, texts);
        assert texts[0] == e.value.output;
      }
    }
  }

  lemma JoinNone(sep: string)
    ensures Join(sep, []) == ""
  {}

  lemma JoinFirst(sep: string, texts: seq<string>)
    requires texts != []
    ensures Join(sep, texts) == texts[0] + ((if |texts| > 1 then sep else "") + Join(sep, texts[1..]))
  {}

  lemma FirstRuns(eval: Evaluator, s: Scope, id: string, code: Node, lower: int, upper: int)
    requires lower <= upper
    ensures AllRun(eval, s, id, code, lower, upper) <==>
            RunCode(eval, s.PushVariable(id, Number(lower)), code).Some? && AllRun(eval, s, id, code, lower + 1, upper)
  {
    hide RunCode;
  }

  // ---------- Only what a lookup finds matters ----------

  ghost predicate SameLookups(s: Scope, t: Scope) {
    s.Visible() == t.Visible() && forall id :: RangeOf(s.ranges, id) == RangeOf(t.ranges, id)
  }

  lemma PushSameVariable(s: Scope, t: Scope, id: string, v: Value)
    requires SameLookups(s, t)
    ensures SameLookups(s.PushVariable(id, v), t.PushVariable(id, v))
  {
    assert ([(id, v)] + s.variables)[1..] == s.variables;
    assert ([(id, v)] + t.variables)[1..] == t.variables;
  }

  lemma PushSameRange(s: Scope, t: Scope, id: string, lower: int, upper: int)
    requires SameLookups(s, t)
    ensures SameLookups(s.PushRange(id, lower, upper), t.PushRange(id, lower, upper))
  {
    assert ([Interval(id, lower, upper)] + s.ranges)[1..] == s.ranges;
    assert ([Interval(id, lower, upper)] + t.ranges)[1..] == t.ranges;
  }

  /** Two effects with the same text and scopes in which lookups find the same. */
  ghost predicate SameEffect(e: Option<Effect>, f: Option<Effect>) {
    match e
    case None => f.None?
    case Some(e) => f.Some? && e.output == f.value.output && SameLookups(e.scope, f.value.scope)
  }

  lemma {:induction false} NodeSame(eval: Evaluator, s: Scope, t: Scope, node: Node)
    requires SameLookups(s, t)
    ensures SameEffect(RunNode(eval, s, node), RunNode(eval, t, node))
    decreases node, 1, 0
  {
    hide RunCode, RunFrom, Strip, Stored, SameLookups;
    Looked(s, t, if node.ForNode? then Strip(node.identifier) else "");
    match node
    case VarNode(id, value) =>
      NodeSame(eval, s, t, value);
      var e := RunNode(eval, s, value);
      if e.Some? {
        PushSameVariable(s, t, Strip(id), Stored(e.value.output));
      }
    case RangeNode(id, exp1, exp2) =>
      var lower, upper := EvalInt(eval, s, exp1), EvalInt(eval, s, exp2);
      if lower.Some? && upper.Some? {
        PushSameRange(s, t, Strip(id), lower.value, upper.value);
      }
    case ForNode(id, sep, code) =>
      var r := RangeOf(s.ranges, Strip(id));
      if r.Some? {
        LoopSame(eval, s, t, Strip(id), Separator(sep), code, r.value.lower, r.value.upper);
      }
    case IfNode(_, thenBranch, elseBranch) =>
      CodeSame(eval, s, t, thenBranch);
      if elseBranch.Some? {
        CodeSame(eval, s, t, elseBranch.value);
      }
    case CodeNode(_) => CodeSame(eval, s, t, node);
    case _ =>
  }

  lemma Looked(s: Scope, t: Scope, id: string)
    requires SameLookups(s, t)
    ensures s.Visible() == t.Visible() && RangeOf(s.ranges, id) == RangeOf(t.ranges, id)
  {}

  lemma {:induction false} LoopSame(eval: Evaluator, s: Scope, t: Scope, id: string, sep: string, code: Node,
                                    i: int, upper: int)
    requires SameLookups(s, t)
    ensures SameEffect(RunFrom(eval, s, id, sep, code, i, upper), RunFrom(eval, t, id, sep, code, i, upper))
    decreases code, 2, upper - i + 1
  {
    hide RunCode, SameLookups;
    if i <= upper {
      PushSameVariable(s, t, id, Number(i));
      CodeSame(eval, s.PushVariable(id, Number(i)), t.PushVariable(id, Number(i)), code);
      LoopSame(eval, s, t, id, sep, code, i + 1, upper);
    }
  }

  lemma {:induction false} CodeSame(eval: Evaluator, s: Scope, t: Scope, code: Node)
    requires SameLookups(s, t)
    ensures SameEffect(RunCode(eval, s, code), RunCode(eval, t, code))
    decreases code, 0, 0
  {
    hide RunAtoms, SameLookups;
    if code.CodeNode? {
      AtomsSame(eval, s, t, code.atoms);
    }
  }

  lemma {:induction false} AtomsSame(eval: Evaluator, s: Scope, t: Scope, atoms: seq<Node>)
    requires SameLookups(s, t)
    ensures SameEffect(RunAtoms(eval, s, atoms), RunAtoms(eval, t, atoms))
    decreases atoms, 0, 0
  {
    hide RunNode, SameLookups;
    if atoms != [] {
      NodeSame(eval, s, t, atoms[0]);
      var e, f := RunNode(eval, s, atoms[0]), RunNode(eval, t, atoms[0]);
      if e.Some? {
        AtomsSame(eval, e.value.scope, f.value.scope, atoms[1..]);
      }
    }
  }

  // ---------- A variable holds the text of its code ----------

  /** After `$var id = [[...]]`, an expression that looks up the variable gives the text. */
  lemma VariableHoldsText(eval: Evaluator, s: Scope, id: string, value: Node)
    requires forall m: map<string, Value> :: id in m ==> eval(m, id) == Some(m[id])
    requires Strip(id) == id
    ensures var e, used := RunNode(eval, s, value), RunAtoms(eval, s, [VarNode(id, value), ExpNode(id)]);
            if e.None? then used.None? else used.Some? && used.value.output == e.value.output
  {
    hide Strip, Stored, Show;
    var atoms := [VarNode(id, value), ExpNode(id)];
    AtomsStep(eval, s, atoms, 0, "");
    assert atoms[0..] == atoms;
    var e := RunNode(eval, s, value);
    if e.Some? {
      var v := Stored(e.value.output);
      var t := s.PushVariable(id, v);
      StoredShows(e.value.output);
      assert t.variables[1..] == s.variables;
      assert t.Visible()[id] == v;
      AtomsStep(eval, t, atoms, 1, "");
      AtomsEnd(eval, t, atoms, "" + Show(v));
      TextOnly(RunAtoms(eval, s, atoms));
      TextOnly(RunAtoms(eval, t, atoms[1..]));
    }
  }

  lemma TextOnly(e: Option<Effect>)
    ensures e.Some? ==> After("", e) == e
  {
    if e.Some? {
      assert "" + e.value.output == e.value.output;
    }
  }

  // ---------- Branches and ranges ----------

  lemma OneAtom(eval: Evaluator, s: Scope, node: Node)
    ensures RunAtoms(eval, s, [node]) == RunNode(eval, s, node)
  {
    hide RunNode;
    var atoms := [node];
    assert atoms[1..] == [];
    var e := RunNode(eval, s, node);
    if e.Some? {
      assert e.value.output + "" == e.value.output;
    }
  }

  /** `$if` gives what its first branch gives for a number other than 0, a text that is not empty,
      or another value that is true, and otherwise what its second branch gives, or nothing. */
  lemma IfTakesBranch(eval: Evaluator, s: Scope, exp: string, first: seq<Node>, second: Option<seq<Node>>)
    ensures var branch := RunAtoms(eval, s, [IfNode(ExpNode(exp), CodeNode(first),
                                                    match second case None => None case Some(b) => Some(CodeNode(b)))]);
            match eval(s.Visible(), exp)
            case None => branch.None?
            case Some(v) =>
              if match v case Number(n) => n != 0 case Text(t) => |t| > 0 case Other(_, truth, _) => truth
              then branch == RunAtoms(eval, s, [CodeNode(first)])
              else if second.Some? then branch == RunAtoms(eval, s, [CodeNode(second.value)])
              else branch == Some(Effect(s, ""))
  {
    hide RunAtoms, RunCode;
    OneAtom(eval, s, IfNode(ExpNode(exp), CodeNode(first),
                            match second case None => None case Some(b) => Some(CodeNode(b))));
    OneAtom(eval, s, CodeNode(first));
    if second.Some? {
      OneAtom(eval, s, CodeNode(second.value));
    }
  }

  /** `$range` and `$for` with the same name give the texts of the code for the integers from the
      first bound to the second, both included, joined by the separator if there is one. */
  lemma RangeLoops(eval: Evaluator, s: Scope, id: string, exp1: string, exp2: string, lower: int, upper: int,
                   sep: Option<string>, code: Node)
    requires eval(s.Visible(), exp1) == Some(Number(lower)) && eval(s.Visible(), exp2) == Some(Number(upper))
    ensures var t := s.PushRange(Strip(id), lower, upper);
            RunAtoms(eval, s, [RangeNode(id, ExpNode(exp1), ExpNode(exp2)), ForNode(id, sep, code)]) ==
            if AllRun(eval, t, Strip(id), code, lower, upper)
            then Some(Effect(t, Join(if sep.Some? then sep.value else "",
                                     Texts(eval, t, Strip(id), code, lower, upper))))
            else None
  {
    hide RunCode, RunFrom, Strip, Join, Texts, AllRun;
    var range, loop := RangeNode(id, ExpNode(exp1), ExpNode(exp2)), ForNode(id, sep, code);
    var t := s.PushRange(Strip(id), lower, upper);
    assert [range, loop][1..] == [loop];
    OneAtom(eval, t, loop);
    LoopIsJoin(eval, t, Strip(id), Separator(sep), code, lower, upper);
    var e := RunNode(eval, t, loop);
    if e.Some? {
      assert "" + e.value.output == e.value.output;
    }
  }

  // ---------- Plain text and expressions ----------

  /** Raw code and `$$` give their text, and an expression what its value shows as: a number its
      decimal digits, a text itself. */
  lemma TextAppears(eval: Evaluator, s: Scope, text: string, exp: string)
    ensures RunAtoms(eval, s, [RawCodeNode(text)]) == Some(Effect(s, text))
    ensures RunAtoms(eval, s, [LiteralDollarNode]) == Some(Effect(s, "$"))
    ensures match eval(s.Visible(), exp)
            case None => RunAtoms(eval, s, [ExpNode(exp)]).None?
            case Some(v) =>
              var shown := match v case Number(n) => Print(n) case Text(t) => t case Other(t, _, _) => t;
              RunAtoms(eval, s, [ExpNode(exp)]) == Some(Effect(s, shown))
  {
    hide RunAtoms, Print;
    OneAtom(eval, s, RawCodeNode(text));
    OneAtom(eval, s, LiteralDollarNode);
    OneAtom(eval, s, ExpNode(exp));
  }

  // ---------- Which texts are integers ----------

  lemma {:induction false} StripsEnd(s: string, spaces: string)
    requires Among(spaces, SPACES)
    ensures StripEnd(s + spaces) == StripEnd(s)
    decreases |spaces|
  {
    if spaces == "" {
      assert s + spaces == s;
    } else {
      var before := spaces[..|spaces| - 1];
      DigitsAndSpaces(spaces[|before|]);
      assert (s + spaces)[..|s + spaces| - 1] == s + before;
      StripsEnd(s, before);
    }
  }

  /** `int` takes white space, a sign or none, digits, and white space; it fails without a digit, and
      on any other text that neither starts nor ends with white space. */
  lemma WholeTextExactly(before: string, sign: string, digits: string, after: string)
    requires Among(before, SPACES) && Among(after, SPACES) && (sign == "" || sign == "-" || sign == "+")
    requires digits != "" ==> !StartsWith(digits, SPACES + "+-") && digits[|digits| - 1] !in SPACES
    ensures digits != "" && Among(digits, DIGITS) ==> AllDigits(digits)
    ensures ToInt(Text(before + (sign + digits) + after)) ==
            if digits == "" || !Among(digits, DIGITS) then None
            else if sign == "-" then Some(-(Numbers.Value(digits) as int)) else Some(Numbers.Value(digits))
  {
    hide Among, AllDigits, Strip, StartsWith, Numbers.Value;
    Stripped(before, sign + digits, after, sign, digits);
    AmongDigits(digits);
    SignTaken(sign, digits);
  }

  lemma {:induction false} AmongDigits(digits: string)
    ensures Among(digits, DIGITS) <==> AllDigits(digits)
  {
    forall i | 0 <= i < |digits| ensures digits[i] in DIGITS <==> IsDigit(digits[i]) {
      DigitsAndSpaces(digits[i]);
    }
  }

  lemma SignTaken(sign: string, digits: string)
    requires sign == "" || sign == "-" || sign == "+"
    requires digits != "" ==> !StartsWith(digits, SPACES + "+-")
    ensures var t := sign + digits;
            && (sign != "" ==> t != "" && t[0] == sign[0] && t[1..] == digits)
            && (sign == "" ==> t == digits && (t == "" || (t[0] != '-' && t[0] != '+')))
  {
    var signs := "+-";
    assert signs[0] == '+' && signs[1] == '-';
    assert (SPACES + signs)[|SPACES|] == '+' && (SPACES + signs)[|SPACES| + 1] == '-';
    assert sign == "" ==> sign + digits == digits;
  }

  lemma Stripped(before: string, t: string, after: string, sign: string, digits: string)
    requires Among(before, SPACES) && Among(after, SPACES) && (sign == "" || sign == "-" || sign == "+")
    requires t == sign + digits
    requires digits != "" ==> !StartsWith(digits, SPACES + "+-") && digits[|digits| - 1] !in SPACES
    ensures Strip(before + t + after) == t
  {
    StripsEnd(before + t, after);
    if t == "" {
      assert before + t == before && before == "" + before;
      StripsEnd("", before);
    } else {
      DigitsAndSpaces(t[0]);
      DigitsAndSpaces(t[|t| - 1]);
      assert (before + t)[|before + t| - 1] == t[|t| - 1];
      SkipsSpaces(before, t);
      assert sign == "" ==> t[0] == digits[0];
    }
  }
}
