/** The pool's three graph functions as programs of the graph language, and the theorem that carries
    every fact about the pool's arithmetic to the compiled and evaluated graphs. */
module PoolGraphs {
  import opened Arith
  import opened LittleEndian
  import opened FheTypes
  import opened Evaluator
  import opened Dsl
  import opened CompiledSize
  import opened MockEngine
  import opened TableRefinement
  import opened ScalarGraphs
  import opened EndToEnd
  import opened Amm
  import opened StraightLine
  import opened Word64

  // ---- word operators as the pool's arithmetic ----

  lemma OperatorsWrap(a: u64, b: u64)
    ensures Operate(Plus, a, b) == Wrap(a + b)
    ensures Operate(Minus, a, b) == Wrap(a - b)
    ensures Operate(Times, a, b) == Wrap(a * b)
    ensures Operate(Slash, a, b) == Div(a, b)
    ensures Operate(Ge, a, b) == if a >= b then 1 else 0
  {
    hide Pow2;
    Pow2Literals();
  }

  // ---- swap ----

  const SWAP_PARAMS := ["reserve_in", "reserve_out", "receipt", "min_amount_out"]

  /** Positions: the parameters are 0 to 3, the lines 4 to 13. */
  const SWAP_LINES := [
    Line("amount_in_with_fee", Single(Bare(Times, 2, Num(997)))),
    Line("numer", Op(Times, Slot(4), Slot(1))),
    Line("denom", Op(Plus, Group(Times, 0, Num(1000)), Slot(4))),
    Line("amount_out", Op(Slash, Slot(5), Slot(6))),
    Line("slip_ok", Op(Ge, Slot(7), Slot(3))),
    Line("zero", Op(Minus, Slot(3), Slot(3))),
    Line("final_in", Cond(Slot(8), Slot(2), Slot(9))),
    Line("final_out", Cond(Slot(8), Slot(7), Slot(9))),
    Line("new_reserve_in", Op(Plus, Slot(0), Slot(10))),
    Line("new_reserve_out", Op(Minus, Slot(1), Slot(11)))]

  const SWAP_OUTS: seq<nat> := [10, 11, 12, 13]

  function SwapFn(): (f: Dsl.Function)
    ensures |f.params| == 4
  {
    SwapBelow();
    Program(SWAP_PARAMS, SWAP_LINES, SWAP_OUTS)
  }

  lemma SwapBelow()
    ensures LinesBelow(SWAP_LINES, 4)
  {
  }

  const SWAP_NAMES := ["reserve_in", "reserve_out", "receipt", "min_amount_out", "amount_in_with_fee", "numer", "denom",
                       "amount_out", "slip_ok", "zero", "final_in", "final_out", "new_reserve_in", "new_reserve_out"]

  lemma SwapNames()
    ensures Names(SWAP_PARAMS, SWAP_LINES) == SWAP_NAMES && PlainNames(SWAP_NAMES)
  {
  }

  lemma SwapNamesDistinct()
    ensures Distinct(SWAP_NAMES)
  {
    assert "reserve_in"[0] != "amount_out"[0] && "receipt"[0] != "slip_ok"[0];
    assert "min_amount_out"[0] != "new_reserve_in"[0] && "numer"[0] != "denom"[0];
  }

  lemma SwapCost(p: Prices)
    ensures LinesCost(SWAP_LINES, p) == 11 * p.call + 2 * p.constant
  {
    hide LinesCost;
    NoLinesCost(p);
    assert SWAP_LINES[..0] == [];
    CostStep(SWAP_LINES, 0, p);
    CostStep(SWAP_LINES, 1, p);
    CostStep(SWAP_LINES, 2, p);
    CostStep(SWAP_LINES, 3, p);
    CostStep(SWAP_LINES, 4, p);
    CostStep(SWAP_LINES, 5, p);
    CostStep(SWAP_LINES, 6, p);
    CostStep(SWAP_LINES, 7, p);
    CostStep(SWAP_LINES, 8, p);
    CostStep(SWAP_LINES, 9, p);
    assert SWAP_LINES[..10] == SWAP_LINES;
  }

  lemma SwapFollows(vs: seq<u64>)
    requires |vs| == 14
    requires vs[4] == Operate(Times, vs[2], 997) && vs[5] == Operate(Times, vs[4], vs[1])
    requires vs[6] == Operate(Plus, Operate(Times, vs[0], 1000), vs[4]) && vs[7] == Operate(Slash, vs[5], vs[6])
    requires vs[8] == Operate(Ge, vs[7], vs[3]) && vs[9] == Operate(Minus, vs[3], vs[3])
    requires vs[10] == (if vs[8] != 0 then vs[2] else vs[9]) && vs[11] == (if vs[8] != 0 then vs[7] else vs[9])
    requires vs[12] == Operate(Plus, vs[0], vs[10]) && vs[13] == Operate(Minus, vs[1], vs[11])
    ensures Follows(SWAP_LINES, 4, vs)
  {
    hide Operate;
    assert LineHolds(SWAP_LINES, 4, vs, 0) && LineHolds(SWAP_LINES, 4, vs, 1) && LineHolds(SWAP_LINES, 4, vs, 2)
        && LineHolds(SWAP_LINES, 4, vs, 3) && LineHolds(SWAP_LINES, 4, vs, 4) && LineHolds(SWAP_LINES, 4, vs, 5)
        && LineHolds(SWAP_LINES, 4, vs, 6) && LineHolds(SWAP_LINES, 4, vs, 7) && LineHolds(SWAP_LINES, 4, vs, 8)
        && LineHolds(SWAP_LINES, 4, vs, 9);
  }

  function SwapOutputs(o: SwapOutcome): seq<u64> {
    [o.finalIn, o.finalOut, o.reserveIn, o.reserveOut]
  }

  /** The values of the swap program's variables, by position. */
  function SwapTrace(ri: u64, ro: u64, x: u64, minOut: u64): (vs: seq<u64>)
    ensures |vs| == 14 && vs[..4] == [ri, ro, x, minOut]
    ensures Picked(vs, SWAP_OUTS) == SwapOutputs(Swap(ri, ro, x, minOut))
  {
    hide Wrap, Div;
    var fee := Wrap(x * 997);
    var numer, denom := Wrap(fee * ro), Wrap(Wrap(ri * 1000) + fee);
    var out, o := Div(numer, denom), Swap(ri, ro, x, minOut);
    var ok: u64 := if out >= minOut then 1 else 0;
    [ri, ro, x, minOut, fee, numer, denom, out, ok, 0, o.finalIn, o.finalOut, o.reserveIn, o.reserveOut]
  }

  lemma SwapTraceFollows(ri: u64, ro: u64, x: u64, minOut: u64)
    ensures Follows(SWAP_LINES, 4, SwapTrace(ri, ro, x, minOut))
  {
    hide Operate, Div, Wrap, Follows;
    var vs, o := SwapTrace(ri, ro, x, minOut), Swap(ri, ro, x, minOut);
    OperatorsWrap(x, 997);
    OperatorsWrap(vs[4], ro);
    OperatorsWrap(ri, 1000);
    OperatorsWrap(Wrap(ri * 1000), vs[4]);
    OperatorsWrap(vs[5], vs[6]);
    OperatorsWrap(vs[7], minOut);
    OperatorsWrap(minOut, minOut);
    OperatorsWrap(ri, o.finalIn);
    OperatorsWrap(ro, o.finalOut);
    WrapSmall(0);
    SwapFollows(vs);
  }

  /** The swap program returns what `Swap` says. */
  lemma SwapFnMeans(ri: u64, ro: u64, x: u64, minOut: u64)
    ensures FunctionValues(SwapFn(), [ri, ro, x, minOut]) == Some(SwapOutputs(Swap(ri, ro, x, minOut)))
  {
    hide FunctionValues, Follows, LinesBelow, Distinct, Program, SwapTrace, Swap, SwapOutputs, Picked;
    SwapBelow();
    SwapNames();
    SwapNamesDistinct();
    SwapTraceFollows(ri, ro, x, minOut);
    ProgramComputes(SWAP_PARAMS, SWAP_LINES, SWAP_OUTS, SwapTrace(ri, ro, x, minOut));
  }

  // ---- add liquidity ----

  const ADD_PARAMS := ["reserve_a", "reserve_b", "total_supply", "receipt_a", "receipt_b", "user_lp"]

  /** Positions: the parameters are 0 to 5, the lines 6 to 15. */
  const ADD_LINES := [
    Line("new_reserve_a", Op(Plus, Slot(0), Slot(3))),
    Line("new_reserve_b", Op(Plus, Slot(1), Slot(4))),
    Line("initial_lp", Single(Slot(3))),
    Line("lp_from_a", Op(Slash, Group(Times, 3, At(2)), Group(Plus, 0, Num(1)))),
    Line("lp_from_b", Op(Slash, Group(Times, 4, At(2)), Group(Plus, 1, Num(1)))),
    Line("subsequent_lp", Cond(Bare(Ge, 9, At(10)), Slot(10), Slot(9))),
    Line("is_subsequent", Single(Bare(Ge, 2, Num(1)))),
    Line("lp_to_mint", Cond(Slot(12), Slot(11), Slot(8))),
    Line("new_total_supply", Op(Plus, Slot(2), Slot(13))),
    Line("new_user_lp", Op(Plus, Slot(5), Slot(13)))]

  const ADD_OUTS: seq<nat> := [3, 4, 6, 7, 14, 15]

  const ADD_NAMES := ["reserve_a", "reserve_b", "total_supply", "receipt_a", "receipt_b", "user_lp", "new_reserve_a",
                      "new_reserve_b", "initial_lp", "lp_from_a", "lp_from_b", "subsequent_lp", "is_subsequent",
                      "lp_to_mint", "new_total_supply", "new_user_lp"]

  function AddFn(): (f: Dsl.Function)
    ensures |f.params| == 6
  {
    AddBelow();
    Program(ADD_PARAMS, ADD_LINES, ADD_OUTS)
  }

  lemma AddBelow()
    ensures LinesBelow(ADD_LINES, 6)
  {
  }

  lemma AddNames()
    ensures Names(ADD_PARAMS, ADD_LINES) == ADD_NAMES && PlainNames(ADD_NAMES)
  {
  }

  lemma AddNamesDistinct()
    ensures Distinct(ADD_NAMES)
  {
    assert "reserve_a"[8] == 'a' && "receipt_a"[8] == 'a' && "lp_from_a"[8] == 'a';
    assert "reserve_b"[8] == 'b' && "receipt_b"[8] == 'b' && "lp_from_b"[8] == 'b';
    assert "reserve_a"[2] == 's' && "reserve_b"[2] == 's' && "receipt_a"[2] == 'c' && "receipt_b"[2] == 'c';
    assert "lp_from_a"[2] == '_' && "lp_from_b"[2] == '_';
    assert "new_reserve_a"[12] == 'a' && "new_reserve_b"[12] == 'b' && "subsequent_lp"[12] == 'p' && "is_subsequent"[12] == 't';
    assert "initial_lp"[0] != "lp_to_mint"[0];
  }

  lemma AddCost(p: Prices)
    ensures LinesCost(ADD_LINES, p) == 14 * p.call + 3 * p.constant
  {
    hide LinesCost;
    NoLinesCost(p);
    assert ADD_LINES[..0] == [];
    CostStep(ADD_LINES, 0, p);
    CostStep(ADD_LINES, 1, p);
    CostStep(ADD_LINES, 2, p);
    CostStep(ADD_LINES, 3, p);
    CostStep(ADD_LINES, 4, p);
    CostStep(ADD_LINES, 5, p);
    CostStep(ADD_LINES, 6, p);
    CostStep(ADD_LINES, 7, p);
    CostStep(ADD_LINES, 8, p);
    CostStep(ADD_LINES, 9, p);
    assert ADD_LINES[..10] == ADD_LINES;
  }

  lemma AddFollows(vs: seq<u64>)
    requires |vs| == 16
    requires vs[6] == Operate(Plus, vs[0], vs[3]) && vs[7] == Operate(Plus, vs[1], vs[4]) && vs[8] == vs[3]
    requires vs[9] == Operate(Slash, Operate(Times, vs[3], vs[2]), Operate(Plus, vs[0], 1))
    requires vs[10] == Operate(Slash, Operate(Times, vs[4], vs[2]), Operate(Plus, vs[1], 1))
    requires vs[11] == if Operate(Ge, vs[9], vs[10]) != 0 then vs[10] else vs[9]
    requires vs[12] == Operate(Ge, vs[2], 1) && vs[13] == if vs[12] != 0 then vs[11] else vs[8]
    requires vs[14] == Operate(Plus, vs[2], vs[13]) && vs[15] == Operate(Plus, vs[5], vs[13])
    ensures Follows(ADD_LINES, 6, vs)
  {
    hide Operate;
    assert LineHolds(ADD_LINES, 6, vs, 0) && LineHolds(ADD_LINES, 6, vs, 1) && LineHolds(ADD_LINES, 6, vs, 2)
        && LineHolds(ADD_LINES, 6, vs, 3) && LineHolds(ADD_LINES, 6, vs, 4) && LineHolds(ADD_LINES, 6, vs, 5)
        && LineHolds(ADD_LINES, 6, vs, 6) && LineHolds(ADD_LINES, 6, vs, 7) && LineHolds(ADD_LINES, 6, vs, 8)
        && LineHolds(ADD_LINES, 6, vs, 9);
  }

  function AddOutputs(x: u64, y: u64, o: AddOutcome): seq<u64> {
    [x, y, o.pool.ra, o.pool.rb, o.pool.ts, o.userLp]
  }

  /** The values of the deposit program's variables, by position. */
  function AddTrace(p: Pool, x: u64, y: u64, userLp: u64): (vs: seq<u64>)
    ensures |vs| == 16 && vs[..6] == [p.ra, p.rb, p.ts, x, y, userLp]
    ensures Picked(vs, ADD_OUTS) == AddOutputs(x, y, Amm.Add(p, x, y, userLp))
  {
    hide Wrap, Div;
    var o := Amm.Add(p, x, y, userLp);
    var fromA, fromB := Div(Wrap(x * p.ts), Wrap(p.ra + 1)), Div(Wrap(y * p.ts), Wrap(p.rb + 1));
    var least := if fromA >= fromB then fromB else fromA;
    var isSubsequent: u64 := if p.ts >= 1 then 1 else 0;
    [p.ra, p.rb, p.ts, x, y, userLp, o.pool.ra, o.pool.rb, x, fromA, fromB, least, isSubsequent, o.minted,
     o.pool.ts, o.userLp]
  }

  lemma AddTraceFollows(p: Pool, x: u64, y: u64, userLp: u64)
    ensures Follows(ADD_LINES, 6, AddTrace(p, x, y, userLp))
  {
    hide Operate, Div, Wrap, Follows;
    var vs := AddTrace(p, x, y, userLp);
    OperatorsWrap(p.ra, x);
    OperatorsWrap(p.rb, y);
    OperatorsWrap(x, p.ts);
    OperatorsWrap(y, p.ts);
    OperatorsWrap(p.ra, 1);
    OperatorsWrap(p.rb, 1);
    OperatorsWrap(Wrap(x * p.ts), Wrap(p.ra + 1));
    OperatorsWrap(Wrap(y * p.ts), Wrap(p.rb + 1));
    OperatorsWrap(vs[9], vs[10]);
    OperatorsWrap(p.ts, 1);
    OperatorsWrap(p.ts, vs[13]);
    OperatorsWrap(userLp, vs[13]);
    AddFollows(vs);
  }

  /** The deposit program returns the receipts and what `Add` says. */
  lemma AddFnMeans(p: Pool, x: u64, y: u64, userLp: u64)
    ensures FunctionValues(AddFn(), [p.ra, p.rb, p.ts, x, y, userLp]) == Some(AddOutputs(x, y, Amm.Add(p, x, y, userLp)))
  {
    hide FunctionValues, Follows, LinesBelow, Distinct, Program, AddTrace, Amm.Add, AddOutputs, Picked;
    AddBelow();
    AddNames();
    AddNamesDistinct();
    AddTraceFollows(p, x, y, userLp);
    ProgramComputes(ADD_PARAMS, ADD_LINES, ADD_OUTS, AddTrace(p, x, y, userLp));
  }

  // ---- remove liquidity ----

  const REMOVE_PARAMS := ["reserve_a", "reserve_b", "total_supply", "burn", "user_lp"]

  /** Positions: the parameters are 0 to 4, the lines 5 to 14. */
  const REMOVE_LINES := [
    Line("sufficient", Op(Ge, Slot(4), Slot(3))),
    Line("amount_a", Op(Slash, Group(Times, 0, At(3)), Group(Plus, 2, Num(1)))),
    Line("amount_b", Op(Slash, Group(Times, 1, At(3)), Group(Plus, 2, Num(1)))),
    Line("zero", Op(Minus, Slot(3), Slot(3))),
    Line("out_a", Cond(Slot(5), Slot(6), Slot(8))),
    Line("out_b", Cond(Slot(5), Slot(7), Slot(8))),
    Line("new_ra", Cond(Slot(5), Bare(Minus, 0, At(9)), Slot(0))),
    Line("new_rb", Cond(Slot(5), Bare(Minus, 1, At(10)), Slot(1))),
    Line("new_supply", Cond(Slot(5), Bare(Minus, 2, At(3)), Slot(2))),
    Line("new_user_lp", Cond(Slot(5), Bare(Minus, 4, At(3)), Slot(4)))]

  const REMOVE_OUTS: seq<nat> := [9, 10, 11, 12, 13, 14]

  const REMOVE_NAMES := ["reserve_a", "reserve_b", "total_supply", "burn", "user_lp", "sufficient", "amount_a", "amount_b",
                         "zero", "out_a", "out_b", "new_ra", "new_rb", "new_supply", "new_user_lp"]

  function RemoveFn(): (f: Dsl.Function)
    ensures |f.params| == 5
  {
    RemoveBelow();
    Program(REMOVE_PARAMS, REMOVE_LINES, REMOVE_OUTS)
  }

  lemma RemoveBelow()
    ensures LinesBelow(REMOVE_LINES, 5)
  {
  }

  lemma RemoveNames()
    ensures Names(REMOVE_PARAMS, REMOVE_LINES) == REMOVE_NAMES && PlainNames(REMOVE_NAMES)
  {
  }

  lemma RemoveNamesDistinct()
    ensures Distinct(REMOVE_NAMES)
  {
    assert "reserve_a"[8] != "reserve_b"[8] && "burn"[0] != "zero"[0] && "sufficient"[0] != "new_supply"[0];
    assert "amount_a"[7] != "amount_b"[7] && "out_a"[4] != "out_b"[4] && "new_ra"[5] != "new_rb"[5];
  }

  lemma RemoveCost(p: Prices)
    ensures LinesCost(REMOVE_LINES, p) == 18 * p.call + 2 * p.constant
  {
    hide LinesCost;
    NoLinesCost(p);
    assert REMOVE_LINES[..0] == [];
    CostStep(REMOVE_LINES, 0, p);
    CostStep(REMOVE_LINES, 1, p);
    CostStep(REMOVE_LINES, 2, p);
    CostStep(REMOVE_LINES, 3, p);
    CostStep(REMOVE_LINES, 4, p);
    CostStep(REMOVE_LINES, 5, p);
    CostStep(REMOVE_LINES, 6, p);
    CostStep(REMOVE_LINES, 7, p);
    CostStep(REMOVE_LINES, 8, p);
    CostStep(REMOVE_LINES, 9, p);
    assert REMOVE_LINES[..10] == REMOVE_LINES;
  }

  lemma RemoveFollows(vs: seq<u64>)
    requires |vs| == 15
    requires vs[5] == Operate(Ge, vs[4], vs[3]) && vs[8] == Operate(Minus, vs[3], vs[3])
    requires vs[6] == Operate(Slash, Operate(Times, vs[0], vs[3]), Operate(Plus, vs[2], 1))
    requires vs[7] == Operate(Slash, Operate(Times, vs[1], vs[3]), Operate(Plus, vs[2], 1))
    requires vs[9] == (if vs[5] != 0 then vs[6] else vs[8]) && vs[10] == (if vs[5] != 0 then vs[7] else vs[8])
    requires vs[11] == if vs[5] != 0 then Operate(Minus, vs[0], vs[9]) else vs[0]
    requires vs[12] == if vs[5] != 0 then Operate(Minus, vs[1], vs[10]) else vs[1]
    requires vs[13] == if vs[5] != 0 then Operate(Minus, vs[2], vs[3]) else vs[2]
    requires vs[14] == if vs[5] != 0 then Operate(Minus, vs[4], vs[3]) else vs[4]
    ensures Follows(REMOVE_LINES, 5, vs)
  {
    hide Operate;
    assert LineHolds(REMOVE_LINES, 5, vs, 0) && LineHolds(REMOVE_LINES, 5, vs, 1) && LineHolds(REMOVE_LINES, 5, vs, 2)
        && LineHolds(REMOVE_LINES, 5, vs, 3) && LineHolds(REMOVE_LINES, 5, vs, 4) && LineHolds(REMOVE_LINES, 5, vs, 5)
        && LineHolds(REMOVE_LINES, 5, vs, 6) && LineHolds(REMOVE_LINES, 5, vs, 7) && LineHolds(REMOVE_LINES, 5, vs, 8)
        && LineHolds(REMOVE_LINES, 5, vs, 9);
  }

  function RemoveOutputs(o: RemoveOutcome): seq<u64> {
    [o.outA, o.outB, o.pool.ra, o.pool.rb, o.pool.ts, o.userLp]
  }

  /** The values of the withdrawal program's variables, by position. */
  function RemoveTrace(p: Pool, burn: u64, userLp: u64): (vs: seq<u64>)
    ensures |vs| == 15 && vs[..5] == [p.ra, p.rb, p.ts, burn, userLp]
    ensures Picked(vs, REMOVE_OUTS) == RemoveOutputs(Remove(p, burn, userLp))
  {
    hide Wrap, Div;
    var o := Remove(p, burn, userLp);
    var sufficient: u64 := if userLp >= burn then 1 else 0;
    var amountA, amountB := Div(Wrap(p.ra * burn), Wrap(p.ts + 1)), Div(Wrap(p.rb * burn), Wrap(p.ts + 1));
    [p.ra, p.rb, p.ts, burn, userLp, sufficient, amountA, amountB, 0, o.outA, o.outB, o.pool.ra, o.pool.rb,
     o.pool.ts, o.userLp]
  }

  lemma RemoveTraceFollows(p: Pool, burn: u64, userLp: u64)
    ensures Follows(REMOVE_LINES, 5, RemoveTrace(p, burn, userLp))
  {
    hide Operate, Div, Wrap, Follows;
    var vs := RemoveTrace(p, burn, userLp);
    OperatorsWrap(userLp, burn);
    OperatorsWrap(p.ra, burn);
    OperatorsWrap(p.rb, burn);
    OperatorsWrap(p.ts, 1);
    OperatorsWrap(Wrap(p.ra * burn), Wrap(p.ts + 1));
    OperatorsWrap(Wrap(p.rb * burn), Wrap(p.ts + 1));
    OperatorsWrap(burn, burn);
    WrapSmall(0);
    OperatorsWrap(p.ra, vs[9]);
    OperatorsWrap(p.rb, vs[10]);
    OperatorsWrap(p.ts, burn);
    RemoveFollows(vs);
  }

  /** The withdrawal program returns what `Remove` says. */
  lemma RemoveFnMeans(p: Pool, burn: u64, userLp: u64)
    ensures FunctionValues(RemoveFn(), [p.ra, p.rb, p.ts, burn, userLp]) == Some(RemoveOutputs(Remove(p, burn, userLp)))
  {
    hide FunctionValues, Follows, LinesBelow, Distinct, Program, RemoveTrace, Remove, RemoveOutputs, Picked;
    RemoveBelow();
    RemoveNames();
    RemoveNamesDistinct();
    RemoveTraceFollows(p, burn, userLp);
    ProgramComputes(REMOVE_PARAMS, REMOVE_LINES, REMOVE_OUTS, RemoveTrace(p, burn, userLp));
  }

  // ---- the compiled graphs ----

  lemma ProgramIsSmall(params: seq<string>, lines: seq<Line>, outs: seq<nat>)
    requires LinesBelow(lines, |params|) && PlainNames(Names(params, lines))
    requires forall i | 0 <= i < |outs| :: outs[i] < |params| + |lines|
    requires |params| + |outs| <= 20 && LinesCost(lines, NODES) <= 200 && LinesCost(lines, CONSTANT_BYTES) <= 3 * 8192
    ensures WellFormedFunction(Program(params, lines, outs)) && SmallProgram(Program(params, lines, outs))
  {
    hide Program, LinesCost, FunctionCost;
    ProgramWellFormed(params, lines, outs);
    ProgramCost(params, lines, outs, NODES);
    ProgramCost(params, lines, outs, CONSTANT_BYTES);
  }

  /** The compiled swap graph, evaluated on encrypted words, decrypts to what `Swap` says: every
      theorem about `Swap` is a theorem about that graph. */
  lemma CompiledSwap(table: Table, digests: seq<Digest>, ri: u64, ro: u64, x: u64, minOut: u64, trailing: seq<byte>)
    requires Coherent(table) && InputsDenote(table, digests, ParamTypes(SwapFn()), [ri, ro, x, minOut])
    ensures Compiles(SwapFn()) && GivesWords(RunCompiled(table, SwapFn(), digests, trailing), SwapOutputs(Swap(ri, ro, x, minOut)))
  {
    hide FunctionValues, Follows, LinesBelow, Distinct, Program, Swap, Amm.Add, Remove, Coherent, InputsDenote, ParamTypes,
      Compiles, RunCompiled, GivesWords, SmallProgram, LinesCost, Dsl.WellFormedFunction, PlainNames, Names, Picked,
      SwapOutputs, AddOutputs, RemoveOutputs;
    SwapBelow();
    SwapNames();
    SwapCost(NODES);
    SwapCost(CONSTANT_BYTES);
    ProgramIsSmall(SWAP_PARAMS, SWAP_LINES, SWAP_OUTS);
    SwapFnMeans(ri, ro, x, minOut);
    CompiledWordsDecrypt(table, SwapFn(), digests, [ri, ro, x, minOut], trailing);
  }

  /** The digests decrypt to words, of which the last two multiply to at least `product`. */
  predicate KeepsProduct(r: Result<Run, EvalError>, product: int) {
    && r.Ok? && |r.value.digests| == 4
    && exists i: u64, o: u64 ::
         DecryptsToWord(r.value.table, r.value.digests[2], i) && DecryptsToWord(r.value.table, r.value.digests[3], o)
         && product <= i * o
  }

  /** For instance: the reserves that the compiled swap graph returns decrypt to numbers whose product
      is at least that of the reserves it was given. */
  lemma CompiledSwapKeepsProduct(table: Table, digests: seq<Digest>, ri: u64, ro: u64, x: u64, minOut: u64, trailing: seq<byte>)
    requires Coherent(table) && InputsDenote(table, digests, ParamTypes(SwapFn()), [ri, ro, x, minOut])
    requires SwapFits(ri, x)
    ensures Compiles(SwapFn()) && KeepsProduct(RunCompiled(table, SwapFn(), digests, trailing), ri * ro)
  {
    hide SwapFn, Compiles, RunCompiled, Coherent, InputsDenote, ParamTypes, Swap, SwapFits, DecryptsToWord;
    CompiledSwap(table, digests, ri, ro, x, minOut, trailing);
    ConstantProduct(ri, ro, x, minOut);
    var r, o := RunCompiled(table, SwapFn(), digests, trailing).value, Swap(ri, ro, x, minOut);
    assert DecryptsToWord(r.table, r.digests[2], SwapOutputs(o)[2]);
    assert DecryptsToWord(r.table, r.digests[3], SwapOutputs(o)[3]);
  }

  /** The compiled deposit graph decrypts to what `Add` says. */
  lemma CompiledAdd(table: Table, digests: seq<Digest>, p: Pool, x: u64, y: u64, userLp: u64, trailing: seq<byte>)
    requires Coherent(table) && InputsDenote(table, digests, ParamTypes(AddFn()), [p.ra, p.rb, p.ts, x, y, userLp])
    ensures Compiles(AddFn()) && GivesWords(RunCompiled(table, AddFn(), digests, trailing), AddOutputs(x, y, Amm.Add(p, x, y, userLp)))
  {
    hide FunctionValues, Follows, LinesBelow, Distinct, Program, Swap, Amm.Add, Remove, Coherent, InputsDenote, ParamTypes,
      Compiles, RunCompiled, GivesWords, SmallProgram, LinesCost, Dsl.WellFormedFunction, PlainNames, Names, Picked,
      SwapOutputs, AddOutputs, RemoveOutputs;
    AddBelow();
    AddNames();
    AddCost(NODES);
    AddCost(CONSTANT_BYTES);
    ProgramIsSmall(ADD_PARAMS, ADD_LINES, ADD_OUTS);
    AddFnMeans(p, x, y, userLp);
    CompiledWordsDecrypt(table, AddFn(), digests, [p.ra, p.rb, p.ts, x, y, userLp], trailing);
  }

  /** The compiled withdrawal graph decrypts to what `Remove` says. */
  lemma CompiledRemove(table: Table, digests: seq<Digest>, p: Pool, burn: u64, userLp: u64, trailing: seq<byte>)
    requires Coherent(table) && InputsDenote(table, digests, ParamTypes(RemoveFn()), [p.ra, p.rb, p.ts, burn, userLp])
    ensures Compiles(RemoveFn()) && GivesWords(RunCompiled(table, RemoveFn(), digests, trailing), RemoveOutputs(Remove(p, burn, userLp)))
  {
    hide FunctionValues, Follows, LinesBelow, Distinct, Program, Swap, Amm.Add, Remove, Coherent, InputsDenote, ParamTypes,
      Compiles, RunCompiled, GivesWords, SmallProgram, LinesCost, Dsl.WellFormedFunction, PlainNames, Names, Picked,
      SwapOutputs, AddOutputs, RemoveOutputs;
    RemoveBelow();
    RemoveNames();
    RemoveCost(NODES);
    RemoveCost(CONSTANT_BYTES);
    ProgramIsSmall(REMOVE_PARAMS, REMOVE_LINES, REMOVE_OUTS);
    RemoveFnMeans(p, burn, userLp);
    CompiledWordsDecrypt(table, RemoveFn(), digests, [p.ra, p.rb, p.ts, burn, userLp], trailing);
  }
}
