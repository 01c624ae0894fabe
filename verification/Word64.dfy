/** The 64-bit fragment of the graph language: on programs whose every value is a u64, the compiled
    graph computes plain wrapping arithmetic. */
module Word64 {
  import opened Arith
  import opened LittleEndian
  import opened FheTypes
  import opened ScalarOps
  import opened GraphBuilding
  import opened Evaluator
  import opened Dsl
  import opened Compiler
  import opened ScalarGraphs
  import opened MethodMeaning
  import opened ScalarPrograms
  import opened EndToEnd
  import opened MockEngine
  import opened TableRefinement
  import opened CompilerProof
  import opened CompiledSize
  import opened GraphFormat
  import opened Script
  import opened Amm

  type Scope = map<string, u64>

  /** An operator on words. */
  function Operate(op: BinOp, a: u64, b: u64): u64 {
    OperatorRange(op, a, b);
    OperatorMeaning(op, a, b, 64)
  }

  lemma OperatorRange(op: BinOp, a: u64, b: u64)
    ensures OperatorMeaning(op, a, b, 64) < U64
    ensures BinaryValue(BinOpCode(op), a, b, E_UINT64) == OperatorMeaning(op, a, b, 64)
  {
    hide OperatorMeaning, BinaryValue, BinOpCode, Pow2;
    Pow2Literals();
    OperatorsMeanArithmetic(op, a, b, E_UINT64);
    assert AmountKept(op, a, b, 64);
    BinaryClosed(BinOpCode(op), a, b, E_UINT64);
  }

  /** The value of an operator's right operand. */
  function RightValue(right: Expr, scope: Scope): Option<u64>
    decreases right, 1
  {
    if right.Lit? then (if right.value < U64 then Some(right.value) else None) else Value(right, scope)
  }

  /** Value of an expression over words, where the fragment covers it. */
  function Value(e: Expr, scope: Scope): Option<u64>
    decreases e, 0
  {
    match e
    case Var(name) => if name in scope then Some(scope[name]) else None
    case Ref(inner) => Value(inner, scope)
    case Paren(inner) => Value(inner, scope)
    case Binary(op, left, right) =>
      var a, b := Value(left, scope), RightValue(right, scope);
      if a.None? || b.None? then None else Some(Operate(op, a.value, b.value))
    case If(cond, thn, els) =>
      var c, t := Value(cond, scope), Value(thn, scope);
      var f := if els.Some? then Value(els.value, scope) else None;
      if c.None? || t.None? || f.None? then None else Some(if c.value != 0 then t.value else f.value)
    case _ => None
  }

  function Values(es: seq<Expr>, scope: Scope): Option<seq<u64>> {
    if es == [] then Some([])
    else
      var x, rest := Value(es[0], scope), Values(es[1..], scope);
      if x.None? || rest.None? then None else Some([x.value] + rest.value)
  }

  /** Lets, then one tuple of outputs. */
  function BodyValues(body: seq<BodyStmt>, scope: Scope): Option<seq<u64>> {
    if body == [] then None
    else if body[0].Emit? then if |body| == 1 then Values(body[0].outputs, scope) else None
    else if body[0].init.None? then None
    else
      var x := Value(body[0].init.value, scope);
      if x.None? then None else BodyValues(body[1..], scope[body[0].name := x.value])
  }

  // ---- words are numbers ----

  function Word(value: u64): (n: Number)
    ensures n == Scalar(E_UINT64, value)
  {
    WordInRange(value);
    Scalar(E_UINT64, value)
  }

  lemma WordInRange(value: u64)
    ensures InRange(value, E_UINT64)
  {
    Pow2Literals();
  }

  function Words(values: seq<u64>): (ns: seq<Number>)
    ensures |ns| == |values|
  {
    seq(|values|, i requires 0 <= i < |values| => Word(values[i]))
  }

  function WordScope(scope: Scope): ScalarPrograms.Scope {
    map x | x in scope :: Word(scope[x])
  }

  /** An operator on words is the operator's method on 64-bit numbers. */
  lemma OperateIs(op: BinOp, a: u64, b: u64)
    ensures CombinedNumber(OperatorMethod(op), Word(a), Word(b)) == Word(Operate(op, a, b))
  {
    hide OperatorMeaning, BinaryValue, BinOpCode, Combined, OperatorMethod;
    WordInRange(a);
    WordInRange(b);
    OperatorRange(op, a, b);
    OperatorInstruction(op, a, b, E_UINT64);
  }

  lemma LiteralWord(value: u64)
    ensures Constant(E_UINT64, value) == Some(Word(value))
  {
    Pow2Literals();
    SmallMod(value, U64);
  }

  lemma RightMeans(right: Expr, scope: Scope)
    requires RightValue(right, scope).Some?
    requires right.Lit? || Says(right, WordScope(scope)) == Some(Word(Value(right, scope).value))
    ensures RightSays(E_UINT64, right, WordScope(scope)) == Some(Word(RightValue(right, scope).value))
  {
    hide Says, Value, Constant;
    if right.Lit? {
      LiteralWord(right.value);
    }
  }

  /** In the fragment, an expression says the word. */
  lemma {:induction false} ValueMeans(e: Expr, scope: Scope)
    requires Value(e, scope).Some?
    ensures Says(e, WordScope(scope)) == Some(Word(Value(e, scope).value))
  {
    hide Operate, RightSays, CombinedNumber, OperatorMethod;
    match e
    case Var(_) =>
    case Ref(inner) => ValueMeans(inner, scope);
    case Paren(inner) => ValueMeans(inner, scope);
    case Binary(op, left, right) =>
      ValueMeans(left, scope);
      if !right.Lit? {
        ValueMeans(right, scope);
      }
      RightMeans(right, scope);
      OperateIs(op, Value(left, scope).value, RightValue(right, scope).value);
    case If(cond, thn, els) =>
      ValueMeans(cond, scope);
      ValueMeans(thn, scope);
      ValueMeans(els.value, scope);
  }

  lemma {:induction false} ValuesMean(es: seq<Expr>, scope: Scope)
    requires Values(es, scope).Some?
    ensures OutputsSay(es, WordScope(scope)) == Some(Words(Values(es, scope).value))
  {
    hide Value, Says;
    if es != [] {
      ValueMeans(es[0], scope);
      ValuesMean(es[1..], scope);
      var x, rest := Value(es[0], scope).value, Values(es[1..], scope).value;
      assert Words([x] + rest) == [Word(x)] + Words(rest);
    }
  }

  lemma {:induction false} BodyMeans(body: seq<BodyStmt>, scope: Scope)
    requires BodyValues(body, scope).Some?
    ensures BodySays(body, WordScope(scope)) == Some(Words(BodyValues(body, scope).value))
    decreases |body|
  {
    hide Value, Says, Values, OutputsSay;
    match body[0]
    case Emit(outputs) =>
      ValuesMean(outputs, scope);
      assert body[1..] == [];
      var words := Words(Values(outputs, scope).value);
      assert words + [] == words;
    case LetStmt(name, init) =>
      ValueMeans(init.value, scope);
      var scope' := scope[name := Value(init.value, scope).value];
      assert WordScope(scope') == WordScope(scope)[name := Word(scope'[name])];
      BodyMeans(body[1..], scope');
  }

  function BindWords(params: seq<Param>, words: seq<u64>, scope: Scope): Scope
    requires |params| == |words|
  {
    if params == [] then scope else BindWords(params[1..], words[1..], scope[params[0].name := words[0]])
  }

  lemma {:induction false} ParamsBind(params: seq<Param>, words: seq<u64>, scope: Scope)
    requires |params| == |words| && forall i | 0 <= i < |params| :: params[i].ty == E_UINT64
    ensures Matches(params, Words(words))
    ensures BindNumbers(params, Words(words), WordScope(scope)) == WordScope(BindWords(params, words, scope))
  {
    if params != [] {
      var scope' := scope[params[0].name := words[0]];
      assert WordScope(scope') == WordScope(scope)[params[0].name := Word(words[0])];
      assert Words(words)[1..] == Words(words[1..]);
      ParamsBind(params[1..], words[1..], scope');
    }
  }

  /** What a function over words returns. */
  function FunctionValues(f: Function, words: seq<u64>): Option<seq<u64>>
    requires |words| == |f.params|
  {
    if forall p <- f.params :: p.ty == E_UINT64 then BodyValues(f.body, BindWords(f.params, words, map[])) else None
  }

  lemma FunctionMeans(f: Function, words: seq<u64>)
    requires |words| == |f.params| && FunctionValues(f, words).Some?
    ensures Matches(f.params, Words(words))
    ensures FunctionSays(f, Words(words)) == Some(Words(FunctionValues(f, words).value))
  {
    hide BodyValues, BodySays, BindNumbers, BindWords;
    assert forall i | 0 <= i < |f.params| :: f.params[i] in f.params;
    ParamsBind(f.params, words, map[]);
    assert WordScope(map[]) == map[];
    BodyMeans(f.body, BindWords(f.params, words, map[]));
  }

  /** The digest decrypts to the eight bytes of the word. */
  predicate DecryptsToWord(table: Table, d: Digest, word: u64) {
    DecryptCall(table, d, E_UINT64) == Ok(ToLe(word, 8))
  }

  /** The compiler accepts f, and the graph fits the format. */
  predicate Compiles(f: Function) {
    CompileFunction(f).Some? && Closed(CompileFunction(f).value, {}) && WithinLimits(CompiledGraph(f))
  }

  /** The evaluator on the serialized graph of f, with any bytes behind it. */
  function RunCompiled(table: Table, f: Function, digests: seq<Digest>, trailing: seq<byte>): Result<Run, EvalError>
    requires Compiles(f)
  {
    EvaluateOn(table, Serialize(CompiledGraph(f)) + trailing, digests)
  }

  /** An evaluation succeeds with digests of these words. */
  predicate GivesWords(r: Result<Run, EvalError>, words: seq<u64>) {
    && r.Ok? && |r.value.digests| == |words|
    && forall i | 0 <= i < |words| :: DecryptsToWord(r.value.table, r.value.digests[i], words[i])
  }

  /** From source to decrypted outputs, for every small program over words: it compiles to a graph
      within the format's limits, and evaluating that graph over digests of the input words gives
      digests that decrypt to the output words. */
  lemma CompiledWordsDecrypt(table: Table, f: Function, digests: seq<Digest>, words: seq<u64>, trailing: seq<byte>)
    requires WellFormedFunction(f) && SmallProgram(f)
    requires |words| == |f.params| && FunctionValues(f, words).Some?
    requires Coherent(table) && InputsDenote(table, digests, ParamTypes(f), words)
    ensures Compiles(f) && GivesWords(RunCompiled(table, f, digests, trailing), FunctionValues(f, words).value)
  {
    hide CompileFunction, WellFormedFunction, SmallProgram, FunctionValues, FunctionSays, Coherent, InputsDenote,
      EvaluateOn, Serialize, CompiledGraph, Closed, WithinLimits, DecryptCall, ParamTypes;
    FunctionMeans(f, words);
    assert ValuesOf(Words(words)) == words;
    ScalarProgramsDecrypt(table, f, digests, Words(words), trailing);
  }
}
