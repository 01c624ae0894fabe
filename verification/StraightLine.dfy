/** Straight-line programs over words: lets of named expressions, evaluated by position instead of name. */
module StraightLine {
  import opened FheTypes
  import opened Dsl
  import opened Amm
  import opened CompiledSize
  import opened Word64

  /** A right operand: an earlier variable by position, or a number. */
  datatype Leaf = At(i: nat) | Num(value: u64)

  /** A part of a line: a variable, or one operator on a variable, bare or in parentheses. */
  datatype Part =
    | Slot(i: nat)
    | Bare(op: BinOp, i: nat, right: Leaf)
    | Group(op: BinOp, i: nat, right: Leaf)

  /** The right-hand side of a let: a part, one more operator, or a conditional. Numbers occur only as
      right operands. */
  datatype Ix =
    | Single(part: Part)
    | Op(op: BinOp, left: Part, right: Part)
    | Cond(cond: Part, thn: Part, els: Part)

  predicate LeafBelow(l: Leaf, n: nat) {
    l.At? ==> l.i < n
  }

  predicate PartBelow(p: Part, n: nat) {
    p.i < n && (p.Slot? || LeafBelow(p.right, n))
  }

  /** Only variables defined before position n occur. */
  predicate Below(e: Ix, n: nat) {
    match e
    case Single(part) => PartBelow(part, n)
    case Op(_, left, right) => PartBelow(left, n) && PartBelow(right, n)
    case Cond(c, t, f) => PartBelow(c, n) && PartBelow(t, n) && PartBelow(f, n)
  }

  function LeafNamed(l: Leaf, names: seq<string>): Expr
    requires LeafBelow(l, |names|)
  {
    if l.At? then Var(names[l.i]) else Lit(l.value)
  }

  function PartNamed(p: Part, names: seq<string>): Expr
    requires PartBelow(p, |names|)
  {
    match p
    case Slot(i) => Var(names[i])
    case Bare(op, i, right) => Binary(op, Var(names[i]), LeafNamed(right, names))
    case Group(op, i, right) => Paren(Binary(op, Var(names[i]), LeafNamed(right, names)))
  }

  /** The source expression. */
  function Named(e: Ix, names: seq<string>): Expr
    requires Below(e, |names|)
  {
    match e
    case Single(part) => PartNamed(part, names)
    case Op(op, left, right) => Binary(op, PartNamed(left, names), PartNamed(right, names))
    case Cond(c, t, f) => If(PartNamed(c, names), PartNamed(t, names), Some(PartNamed(f, names)))
  }

  function LeafValue(l: Leaf, vs: seq<u64>): u64
    requires LeafBelow(l, |vs|)
  {
    if l.At? then vs[l.i] else l.value
  }

  function PartValue(p: Part, vs: seq<u64>): u64
    requires PartBelow(p, |vs|)
  {
    if p.Slot? then vs[p.i] else Operate(p.op, vs[p.i], LeafValue(p.right, vs))
  }

  function IxValue(e: Ix, vs: seq<u64>): u64
    requires Below(e, |vs|)
  {
    match e
    case Single(part) => PartValue(part, vs)
    case Op(op, left, right) => Operate(op, PartValue(left, vs), PartValue(right, vs))
    case Cond(c, t, f) => if PartValue(c, vs) != 0 then PartValue(t, vs) else PartValue(f, vs)
  }

  predicate Distinct(names: seq<string>) {
    forall i, j | 0 <= i < j < |names| :: names[i] != names[j]
  }

  /** The first k names have these values. */
  predicate Holds(scope: Scope, names: seq<string>, values: seq<u64>, k: nat) {
    k <= |names| && k <= |values| && forall i | 0 <= i < k :: names[i] in scope && scope[names[i]] == values[i]
  }

  lemma BelowMore(e: Ix, m: nat, n: nat)
    requires Below(e, m) && m <= n
    ensures Below(e, n)
  {
  }

  lemma VariableValue(i: nat, names: seq<string>, vs: seq<u64>, scope: Scope, n: nat)
    requires i < n && Holds(scope, names, vs, n)
    ensures Value(Var(names[i]), scope) == Some(vs[i]) && RightValue(Var(names[i]), scope) == Some(vs[i])
  {
  }

  lemma BinaryWords(op: BinOp, left: Expr, right: Expr, scope: Scope, a: u64, b: u64)
    requires Value(left, scope) == Some(a) && RightValue(right, scope) == Some(b)
    ensures Value(Binary(op, left, right), scope) == Some(Operate(op, a, b))
  {
    hide Operate;
  }

  lemma PartMeans(p: Part, names: seq<string>, vs: seq<u64>, scope: Scope, n: nat)
    requires PartBelow(p, n) && Holds(scope, names, vs, n) && n <= |names| && n <= |vs|
    ensures Value(PartNamed(p, names), scope) == Some(PartValue(p, vs)) && !PartNamed(p, names).Lit?
    ensures RightValue(PartNamed(p, names), scope) == Some(PartValue(p, vs))
  {
    hide Operate;
    VariableValue(p.i, names, vs, scope, n);
    if !p.Slot? {
      if p.right.At? {
        VariableValue(p.right.i, names, vs, scope, n);
      }
      LeafMeans(p.right, names, vs, scope, n);
      BinaryWords(p.op, Var(names[p.i]), LeafNamed(p.right, names), scope, vs[p.i], LeafValue(p.right, vs));
    }
  }

  lemma LeafMeans(l: Leaf, names: seq<string>, vs: seq<u64>, scope: Scope, n: nat)
    requires LeafBelow(l, n) && Holds(scope, names, vs, n) && n <= |names| && n <= |vs|
    ensures RightValue(LeafNamed(l, names), scope) == Some(LeafValue(l, vs))
  {
    if l.At? {
      VariableValue(l.i, names, vs, scope, n);
    }
  }

  /** Evaluation by name is evaluation by position. */
  lemma NamedValue(e: Ix, names: seq<string>, vs: seq<u64>, scope: Scope, n: nat)
    requires Below(e, n) && Holds(scope, names, vs, n) && Below(e, |names|) && Below(e, |vs|)
    ensures Value(Named(e, names), scope) == Some(IxValue(e, vs))
  {
    hide Operate, PartNamed, PartValue, PartBelow;
    match e
    case Single(part) => PartMeans(part, names, vs, scope, n);
    case Op(op, left, right) =>
      PartMeans(left, names, vs, scope, n);
      PartMeans(right, names, vs, scope, n);
      BinaryWords(op, PartNamed(left, names), PartNamed(right, names), scope, PartValue(left, vs), PartValue(right, vs));
    case Cond(c, t, f) =>
      PartMeans(c, names, vs, scope, n);
      PartMeans(t, names, vs, scope, n);
      PartMeans(f, names, vs, scope, n);
  }

  // ---- programs ----

  function Words(names: seq<string>): (ps: seq<Param>)
    ensures |ps| == |names|
    ensures forall i | 0 <= i < |names| :: ps[i] == Param(names[i], E_UINT64, false)
  {
    seq(|names|, i requires 0 <= i < |names| => Param(names[i], E_UINT64, false))
  }

  /** `let name = e;`: the line defines the next position. */
  datatype Line = Line(name: string, e: Ix)

  /** Each line reads only what is defined before it. */
  predicate LinesBelow(lines: seq<Line>, arity: nat) {
    forall k | 0 <= k < |lines| :: Below(lines[k].e, arity + k)
  }

  /** All names, by position: the parameters, then one per line. */
  function Names(params: seq<string>, lines: seq<Line>): (names: seq<string>)
    ensures |names| == |params| + |lines|
    ensures names[..|params|] == params && forall k | 0 <= k < |lines| :: names[|params| + k] == lines[k].name
  {
    params + seq(|lines|, k requires 0 <= k < |lines| => lines[k].name)
  }

  function Variables(names: seq<string>, ixs: seq<nat>): (es: seq<Expr>)
    requires forall i | 0 <= i < |ixs| :: ixs[i] < |names|
    ensures |es| == |ixs| && forall i | 0 <= i < |ixs| :: es[i] == Var(names[ixs[i]])
  {
    seq(|ixs|, i requires 0 <= i < |ixs| => Var(names[ixs[i]]))
  }

  function Picked(values: seq<u64>, ixs: seq<nat>): (vs: seq<u64>)
    requires forall i | 0 <= i < |ixs| :: ixs[i] < |values|
    ensures |vs| == |ixs| && forall i | 0 <= i < |ixs| :: vs[i] == values[ixs[i]]
  {
    seq(|ixs|, i requires 0 <= i < |ixs| => values[ixs[i]])
  }

  function LineStmt(params: seq<string>, lines: seq<Line>, k: nat): BodyStmt
    requires k < |lines| && LinesBelow(lines, |params|)
  {
    BelowMore(lines[k].e, |params| + k, |Names(params, lines)|);
    LetStmt(lines[k].name, Some(Named(lines[k].e, Names(params, lines))))
  }

  /** The source program: parameters, one let per line, one tuple of outputs. */
  function Program(params: seq<string>, lines: seq<Line>, outs: seq<nat>): (f: Dsl.Function)
    requires LinesBelow(lines, |params|)
    requires forall i | 0 <= i < |outs| :: outs[i] < |params| + |lines|
    ensures |f.params| == |params|
  {
    Dsl.Function(Words(params),
                 seq(|lines|, k requires 0 <= k < |lines| => LineStmt(params, lines, k))
                 + [Emit(Variables(Names(params, lines), outs))])
  }

  /** Line k gives the value at its position. */
  predicate LineHolds(lines: seq<Line>, arity: nat, vs: seq<u64>, k: nat) {
    k < |lines| && arity + k < |vs| && Below(lines[k].e, |vs|) && IxValue(lines[k].e, vs) == vs[arity + k]
  }

  /** vs lists the inputs and then the value of each line. */
  predicate Follows(lines: seq<Line>, arity: nat, vs: seq<u64>) {
    |vs| == arity + |lines| && forall k: nat | k < |lines| :: LineHolds(lines, arity, vs, k)
  }

  lemma {:induction false} ParamsHeld(params: seq<Param>, words: seq<u64>, scope: Scope, names: seq<string>, values: seq<u64>, k: nat)
    requires |params| == |words| && k + |params| <= |names| && Distinct(names)
    requires k + |params| <= |values| && values[k..k + |params|] == words
    requires forall i | 0 <= i < |params| :: params[i].name == names[k + i]
    requires Holds(scope, names, values, k)
    ensures Holds(BindWords(params, words, scope), names, values, k + |params|)
    decreases |params|
  {
    if params != [] {
      assert values[k] == words[0] && params[0].name == names[k];
      assert forall i | 0 <= i < |params[1..]| :: params[1..][i].name == names[k + 1 + i];
      ParamsHeld(params[1..], words[1..], scope[names[k] := words[0]], names, values, k + 1);
    }
  }

  lemma {:induction false} OutputsHeld(names: seq<string>, vs: seq<u64>, scope: Scope, outs: seq<nat>)
    requires |names| == |vs| && Holds(scope, names, vs, |vs|) && forall i | 0 <= i < |outs| :: outs[i] < |vs|
    ensures Word64.Values(Variables(names, outs), scope) == Some(Picked(vs, outs))
  {
    if outs != [] {
      OutputsHeld(names, vs, scope, outs[1..]);
      assert Variables(names, outs)[1..] == Variables(names, outs[1..]);
      assert Picked(vs, outs) == [vs[outs[0]]] + Picked(vs, outs[1..]);
    }
  }

  lemma {:induction false} LinesCompute(params: seq<string>, lines: seq<Line>, outs: seq<nat>, vs: seq<u64>, k: nat, scope: Scope)
    requires LinesBelow(lines, |params|) && Distinct(Names(params, lines)) && Follows(lines, |params|, vs)
    requires forall i | 0 <= i < |outs| :: outs[i] < |params| + |lines|
    requires k <= |lines| && Holds(scope, Names(params, lines), vs, |params| + k)
    ensures BodyValues(Program(params, lines, outs).body[k..], scope) == Some(Picked(vs, outs))
    decreases |lines| - k
  {
    hide Named, IxValue;
    var body, names := Program(params, lines, outs).body, Names(params, lines);
    if k == |lines| {
      OutputsHeld(names, vs, scope, outs);
    } else {
      assert LineHolds(lines, |params|, vs, k);
      BelowMore(lines[k].e, |params| + k, |names|);
      NamedValue(lines[k].e, names, vs, scope, |params| + k);
      LinesCompute(params, lines, outs, vs, k + 1, scope[lines[k].name := vs[|params| + k]]);
      assert body[k..][1..] == body[k + 1..];
    }
  }

  /** A straight-line program returns the values its lines give, read off by position. */
  lemma ProgramComputes(params: seq<string>, lines: seq<Line>, outs: seq<nat>, vs: seq<u64>)
    requires LinesBelow(lines, |params|) && Distinct(Names(params, lines)) && Follows(lines, |params|, vs)
    requires forall i | 0 <= i < |outs| :: outs[i] < |params| + |lines|
    ensures FunctionValues(Program(params, lines, outs), vs[..|params|]) == Some(Picked(vs, outs))
  {
    hide BodyValues, BindWords;
    var f, names := Program(params, lines, outs), Names(params, lines);
    ParamsHeld(f.params, vs[..|params|], map[], names, vs, 0);
    LinesCompute(params, lines, outs, vs, 0, BindWords(f.params, vs[..|params|], map[]));
    assert f.body[0..] == f.body;
  }

  // ---- well-formedness and size ----

  lemma PartWellFormed(p: Part, names: seq<string>)
    requires PartBelow(p, |names|) && forall x <- names :: UserName(x)
    ensures WellFormedExpr(PartNamed(p, names))
  {
    hide UserName;
    assert names[p.i] in names;
    VarWellFormed(names[p.i]);
    if !p.Slot? {
      if p.right.At? {
        assert names[p.right.i] in names;
        VarWellFormed(names[p.right.i]);
      }
      BinaryWellFormed(p.op, Var(names[p.i]), LeafNamed(p.right, names));
    }
  }

  lemma VarWellFormed(name: string)
    requires UserName(name)
    ensures WellFormedExpr(Var(name))
  {
  }

  lemma BinaryWellFormed(op: BinOp, left: Expr, right: Expr)
    requires WellFormedExpr(left) && WellFormedExpr(right)
    ensures WellFormedExpr(Binary(op, left, right))
  {
  }

  lemma NamedWellFormed(e: Ix, names: seq<string>)
    requires Below(e, |names|) && forall x <- names :: UserName(x)
    ensures WellFormedExpr(Named(e, names))
  {
    hide UserName, PartNamed, PartBelow;
    match e
    case Single(part) => PartWellFormed(part, names);
    case Op(_, left, right) =>
      PartWellFormed(left, names);
      PartWellFormed(right, names);
    case Cond(c, t, f) =>
      PartWellFormed(c, names);
      PartWellFormed(t, names);
      PartWellFormed(f, names);
  }

  /** Names that do not start with an underscore are user names. */
  predicate PlainNames(names: seq<string>) {
    forall i | 0 <= i < |names| :: names[i] != [] && names[i][0] != '_'
  }

  lemma ProgramWellFormed(params: seq<string>, lines: seq<Line>, outs: seq<nat>)
    requires LinesBelow(lines, |params|) && PlainNames(Names(params, lines))
    requires forall i | 0 <= i < |outs| :: outs[i] < |params| + |lines|
    ensures WellFormedFunction(Program(params, lines, outs))
  {
    hide Named;
    var f, names := Program(params, lines, outs), Names(params, lines);
    forall x | x in names
      ensures UserName(x)
    {
      assert x[0] != '_' && "__t"[0] == '_' && "__gb"[0] == '_';
    }
    forall i | 0 <= i < |f.params|
      ensures UserName(f.params[i].name)
    {
      assert names[i] in names;
    }
    forall k | 0 <= k < |f.body|
      ensures WellFormedStmt(f.body[k])
    {
      if k < |lines| {
        assert names[|params| + k] in names;
        BelowMore(lines[k].e, |params| + k, |names|);
        NamedWellFormed(lines[k].e, names);
      }
    }
  }

  function PartCost(p: Part, prices: Prices): nat {
    if p.Slot? then 0 else prices.call + if p.right.Num? then prices.constant else 0
  }

  function IxCost(e: Ix, p: Prices): nat {
    match e
    case Single(part) => PartCost(part, p)
    case Op(_, left, right) => p.call + PartCost(left, p) + PartCost(right, p)
    case Cond(c, t, f) => p.call + PartCost(c, p) + PartCost(t, p) + PartCost(f, p)
  }

  function LinesCost(lines: seq<Line>, p: Prices): nat {
    if lines == [] then 0 else LinesCost(lines[..|lines| - 1], p) + IxCost(lines[|lines| - 1].e, p)
  }

  lemma NoLinesCost(p: Prices)
    ensures LinesCost([], p) == 0
  {
  }

  lemma CostStep(lines: seq<Line>, k: nat, p: Prices)
    requires k < |lines|
    ensures LinesCost(lines[..k + 1], p) == LinesCost(lines[..k], p) + IxCost(lines[k].e, p)
  {
    assert lines[..k + 1][..k] == lines[..k];
  }

  lemma PartNamedCost(part: Part, names: seq<string>, p: Prices)
    requires PartBelow(part, |names|)
    ensures ExprCost(PartNamed(part, names), p) == PartCost(part, p)
  {
    if !part.Slot? {
      assert ExprCost(Var(names[part.i]), p) == 0;
      assert ExprCost(LeafNamed(part.right, names), p) == if part.right.Num? then p.constant else 0;
      assert ExprCost(Binary(part.op, Var(names[part.i]), LeafNamed(part.right, names)), p) == PartCost(part, p);
    }
  }

  lemma NamedCost(e: Ix, names: seq<string>, p: Prices)
    requires Below(e, |names|)
    ensures ExprCost(Named(e, names), p) == IxCost(e, p)
  {
    hide PartNamed, PartCost, PartBelow;
    match e
    case Single(part) => PartNamedCost(part, names, p);
    case Op(_, left, right) =>
      PartNamedCost(left, names, p);
      PartNamedCost(right, names, p);
    case Cond(c, t, f) =>
      PartNamedCost(c, names, p);
      PartNamedCost(t, names, p);
      PartNamedCost(f, names, p);
  }

  lemma {:induction false} VariablesCost(names: seq<string>, outs: seq<nat>, p: Prices)
    requires forall i | 0 <= i < |outs| :: outs[i] < |names|
    ensures ExprsCost(Variables(names, outs), p) == 0
  {
    if outs != [] {
      VariablesCost(names, outs[1..], p);
      assert Variables(names, outs)[1..] == Variables(names, outs[1..]);
    }
  }

  lemma {:induction false} BodyCostAppend(s: seq<BodyStmt>, t: seq<BodyStmt>, p: Prices)
    ensures BodyCost(s + t, p) == BodyCost(s, p) + BodyCost(t, p)
  {
    if s == [] {
      assert s + t == t;
    } else {
      assert (s + t)[1..] == s[1..] + t;
      BodyCostAppend(s[1..], t, p);
    }
  }

  lemma {:induction false} LetsCost(params: seq<string>, lines: seq<Line>, outs: seq<nat>, k: nat, p: Prices)
    requires LinesBelow(lines, |params|) && k <= |lines|
    requires forall i | 0 <= i < |outs| :: outs[i] < |params| + |lines|
    ensures BodyCost(Program(params, lines, outs).body[..k], p) == LinesCost(lines[..k], p)
  {
    hide Named;
    if k > 0 {
      var body := Program(params, lines, outs).body;
      LetsCost(params, lines, outs, k - 1, p);
      BodyCostAppend(body[..k - 1], [body[k - 1]], p);
      assert body[..k - 1] + [body[k - 1]] == body[..k] && [body[k - 1]][1..] == [];
      assert lines[..k][..k - 1] == lines[..k - 1];
      BelowMore(lines[k - 1].e, |params| + k - 1, |params| + |lines|);
      NamedCost(lines[k - 1].e, Names(params, lines), p);
    }
  }

  /** What a straight-line program costs to compile. */
  lemma ProgramCost(params: seq<string>, lines: seq<Line>, outs: seq<nat>, p: Prices)
    requires LinesBelow(lines, |params|)
    requires forall i | 0 <= i < |outs| :: outs[i] < |params| + |lines|
    ensures FunctionCost(Program(params, lines, outs), p) == |params| * p.call + LinesCost(lines, p) + |outs| * p.call
  {
    hide Named, BodyCost, LinesCost;
    var body := Program(params, lines, outs).body;
    LetsCost(params, lines, outs, |lines|, p);
    assert lines[..|lines|] == lines;
    BodyCostAppend(body[..|lines|], body[|lines|..], p);
    assert body[..|lines|] + body[|lines|..] == body;
    assert body[|lines|..] == [Emit(Variables(Names(params, lines), outs))];
    VariablesCost(Names(params, lines), outs, p);
    OneStatementCost(body[|lines|..], p);
  }

  lemma OneStatementCost(body: seq<BodyStmt>, p: Prices)
    requires |body| == 1
    ensures BodyCost(body, p) == StatementCost(body[0], p)
  {
    assert body[1..] == [];
  }
}
