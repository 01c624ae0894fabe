/** The confidential constant-product pool: its three graph functions over wrapping 64-bit
    arithmetic, and what no single trade, deposit or withdrawal can break. */
module Amm {
  import opened Arith
  import opened ScalarOps

  type u64 = x: nat | x < U64

  function Wrap(x: int): u64 {
    x % U64
  }

  /** Division of the graph engine: by zero gives zero. */
  function Div(n: nat, d: nat): (q: nat)
    ensures q * d <= n
    ensures q <= n
  {
    if d == 0 then 0 else DivLe(n, d); n / d
  }

  lemma DivMeaning(n: nat, d: nat)
    requires d > 0
    ensures Div(n, d) == n / d
  {
  }

  datatype SwapOutcome = SwapOutcome(finalIn: u64, finalOut: u64, reserveIn: u64, reserveOut: u64)

  /** The payout before the slippage check. */
  function AmountOut(reserveIn: u64, reserveOut: u64, receipt: u64): u64 {
    var withFee := Wrap(receipt * 997);
    Div(Wrap(withFee * reserveOut), Wrap(Wrap(reserveIn * 1000) + withFee))
  }

  /** `swap_graph`. */
  function Swap(reserveIn: u64, reserveOut: u64, receipt: u64, minOut: u64): SwapOutcome {
    var amountOut := AmountOut(reserveIn, reserveOut, receipt);
    var slipOk := amountOut >= minOut;
    var finalIn := if slipOk then receipt else 0;
    var finalOut := if slipOk then amountOut else 0;
    SwapOutcome(finalIn, finalOut, Wrap(reserveIn + finalIn), Wrap(reserveOut - finalOut))
  }

  datatype Pool = Pool(ra: u64, rb: u64, ts: u64)

  datatype AddOutcome = AddOutcome(pool: Pool, minted: u64, userLp: u64)

  /** `add_liquidity_graph`; the receipts are passed through as the first two outputs. */
  function Add(p: Pool, receiptA: u64, receiptB: u64, userLp: u64): AddOutcome {
    var fromA := Div(Wrap(receiptA * p.ts), Wrap(p.ra + 1));
    var fromB := Div(Wrap(receiptB * p.ts), Wrap(p.rb + 1));
    var subsequent := if fromA >= fromB then fromB else fromA;
    var minted := if p.ts >= 1 then subsequent else receiptA;
    AddOutcome(Pool(Wrap(p.ra + receiptA), Wrap(p.rb + receiptB), Wrap(p.ts + minted)), minted, Wrap(userLp + minted))
  }

  datatype RemoveOutcome = RemoveOutcome(outA: u64, outB: u64, pool: Pool, userLp: u64)

  /** `remove_liquidity_graph`. */
  function Remove(p: Pool, burn: u64, userLp: u64): RemoveOutcome {
    if userLp >= burn then
      var outA := Div(Wrap(p.ra * burn), Wrap(p.ts + 1));
      var outB := Div(Wrap(p.rb * burn), Wrap(p.ts + 1));
      RemoveOutcome(outA, outB, Pool(Wrap(p.ra - outA), Wrap(p.rb - outB), Wrap(p.ts - burn)), Wrap(userLp - burn))
    else RemoveOutcome(0, 0, p, userLp)
  }

  lemma WrapSmall(x: nat)
    requires x < U64
    ensures Wrap(x) == x
  {
  }

  // ---- swaps ----

  /** The two sums of a swap stay below 2^64. The products of its numerator may wrap. */
  predicate SwapFits(reserveIn: u64, receipt: u64) {
    1000 * reserveIn + 997 * receipt < U64
  }

  lemma AmountOutFits(ri: u64, ro: u64, x: u64)
    requires SwapFits(ri, x)
    ensures AmountOut(ri, ro, x) == Div(Wrap(997 * x * ro), 1000 * ri + 997 * x)
  {
    WrapSmall(x * 997);
    WrapSmall(ri * 1000);
    WrapSmall(ri * 1000 + x * 997);
  }

  lemma WrapLe(n: nat)
    ensures Wrap(n) <= n
  {
  }

  /** What a swap pays, passing its slippage check or not, against the exact rational price. */
  lemma PriceBound(ri: u64, ro: u64, x: u64, minOut: u64)
    requires SwapFits(ri, x)
    ensures var o := Swap(ri, ro, x, minOut);
            && o.finalOut * (1000 * ri + 997 * x) <= 997 * x * ro
            && o.finalOut <= ro
            && o.reserveIn == ri + o.finalIn && o.reserveOut == ro - o.finalOut
  {
    hide AmountOut, Div;
    var d, n := 1000 * ri + 997 * x, 997 * x * ro;
    AmountOutFits(ri, ro, x);
    WrapLe(n);
    PayoutWithinReserve(AmountOut(ri, ro, x), ri, ro, x);
  }

  lemma PayoutWithinReserve(out: nat, ri: nat, ro: nat, x: nat)
    requires out * (1000 * ri + 997 * x) <= 997 * x * ro
    requires 1000 * ri + 997 * x == 0 ==> out == 0
    ensures out <= ro
  {
    var d := 1000 * ri + 997 * x;
    if d > 0 {
      MulLe(997 * x, d, ro);
      assert ro * d == d * ro;
      CancelLe(out, ro, d);
    }
  }

  /** A payout at or below the fee-adjusted price leaves the product of the reserves at least as large. */
  lemma ProductGrows(ri: nat, ro: nat, x: nat, out: nat)
    requires out * (1000 * ri + 997 * x) <= 997 * x * ro && out <= ro
    ensures ri * ro <= (ri + x) * (ro - out)
  {
    MulLe(out, ro, 3 * x);
    assert 1000 * (out * (ri + x)) == out * (1000 * ri + 997 * x) + out * (3 * x);
    assert 997 * x * ro + ro * (3 * x) == 1000 * (x * ro);
    assert (ri + x) * (ro - out) == ri * ro + x * ro - out * (ri + x);
  }

  /** Constant product: whatever the numerator wraps to, the product of the reserves does not fall,
      and a two-sided pool stays two-sided. */
  lemma ConstantProduct(ri: u64, ro: u64, x: u64, minOut: u64)
    requires SwapFits(ri, x)
    ensures var o := Swap(ri, ro, x, minOut);
            && ri * ro <= o.reserveIn * o.reserveOut
            && (ri > 0 && ro > 0 ==> o.reserveOut > 0)
  {
    hide Swap;
    var o := Swap(ri, ro, x, minOut);
    PriceBound(ri, ro, x, minOut);
    FinalIn(ri, ro, x, minOut);
    ProductGrows(ri, ro, o.finalIn, o.finalOut);
  }

  lemma FinalIn(ri: u64, ro: u64, x: u64, minOut: u64)
    ensures var o := Swap(ri, ro, x, minOut);
            (o.finalIn == x || (o.finalIn == 0 && o.finalOut == 0))
  {
  }

  /** With a wrapped denominator the bound is lost: 1000 * 18446744073709552 is 2^64 + 384, and a
      deposit of 1 takes one of the two units in the pool. */
  lemma WrappedDenominatorBreaksProduct()
    ensures var o := Swap(18446744073709552, 2, 1, 0);
            o.reserveIn * o.reserveOut < 18446744073709552 * 2
  {
    hide Div, Wrap, AmountOut;
    WrappedDenominator();
    WrapSmall(18446744073709552 + 1);
    WrapSmall(2 - 1);
  }

  lemma WrappedDenominator()
    ensures AmountOut(18446744073709552, 2, 1) == 1
  {
    hide Div;
    DivModUnique(18446744073709552 * 1000, U64, 1, 384);
    hide Wrap;
    WrapSmall(997);
    WrapSmall(997 * 2);
    WrapSmall(384 + 997);
    DivModUnique(1994, 1381, 1, 613);
    DivMeaning(1994, 1381);
  }

  // ---- splitting a trade ----

  /** Two payouts bounded by their own prices stay, together, below the price of the whole. */
  lemma SplitBound(ri: nat, ro: nat, x: nat, y: nat, o1: nat, o2: nat)
    requires o1 <= ro
    requires o1 * (1000 * ri + 997 * x) <= 997 * x * ro
    requires o2 * (1000 * (ri + x) + 997 * y) <= 997 * y * (ro - o1)
    ensures (o1 + o2) * (1000 * ri + 997 * (x + y)) <= 997 * (x + y) * ro
  {
    var d1, d := 1000 * ri + 997 * x, 1000 * ri + 997 * (x + y);
    assert o1 * d == o1 * d1 + 997 * y * o1;
    assert o2 * (1000 * (ri + x) + 997 * y) == o2 * d + o2 * (3 * x);
    assert 997 * y * (ro - o1) == 997 * y * ro - 997 * y * o1;
    assert 997 * (x + y) * ro == 997 * x * ro + 997 * y * ro;
    assert o2 * (3 * x) >= 0;
    assert (o1 + o2) * d == o1 * d + o2 * d;
  }

  /** The largest integer below a quotient is the quotient's floor. */
  lemma BelowQuotient(q: nat, n: nat, d: nat)
    requires d > 0 && q * d <= n
    ensures q <= n / d
  {
    if n / d < q {
      MulLe(n / d + 1, q, d);
    }
  }

  /** Splitting a trade never pays more, flooring included, when nothing wraps. */
  lemma SplittingNeverPaysMore(ri: u64, ro: u64, x: u64, y: u64)
    requires 997 * (x + y) * ro < U64 && 1000 * (ri + x) + 997 * y < U64
    requires x + y < U64
    ensures var first := Swap(ri, ro, x, 0);
            var second := Swap(first.reserveIn, first.reserveOut, y, 0);
            first.finalOut + second.finalOut <= Swap(ri, ro, x + y, 0).finalOut
  {
    hide Swap;
    var first := Swap(ri, ro, x, 0);
    PriceBound(ri, ro, x, 0);
    NoSlippage(ri, ro, x);
    var second := Swap(first.reserveIn, first.reserveOut, y, 0);
    PriceBound(ri + x, ro - first.finalOut, y, 0);
    SplitBound(ri, ro, x, y, first.finalOut, second.finalOut);
    NoSlippage(ri, ro, x + y);
    UnwrappedPrice(ri, ro, x + y);
    if 1000 * ri + 997 * (x + y) > 0 {
      BelowQuotient(first.finalOut + second.finalOut, 997 * (x + y) * ro, 1000 * ri + 997 * (x + y));
    } else {
      NothingForNothing(ri, ro, 0);
    }
  }

  lemma NoSlippage(ri: u64, ro: u64, x: u64)
    ensures Swap(ri, ro, x, 0).finalIn == x
  {
  }

  lemma NothingForNothing(ri: u64, ro: u64, minOut: u64)
    ensures Swap(ri, ro, 0, minOut).finalOut == 0
  {
  }

  lemma UnwrappedPrice(ri: u64, ro: u64, x: u64)
    requires 997 * x * ro < U64 && SwapFits(ri, x)
    ensures Swap(ri, ro, x, 0).finalOut == Div(997 * x * ro, 1000 * ri + 997 * x)
  {
    hide AmountOut, Wrap, Div;
    AmountOutFits(ri, ro, x);
    WrapSmall(997 * x * ro);
  }

  /** With a wrapped numerator splitting can pay: the numerator of the whole trade wraps to 0. */
  lemma WrappedNumeratorRewardsSplitting()
    ensures SwapFits(1000, 16)
    ensures Swap(1000, 0x1000_0000_0000_0000, 16, 0).finalOut == 0
    ensures Swap(1000, 0x1000_0000_0000_0000, 8, 0).finalOut > 0
  {
    hide AmountOut, Div;
    var ri: u64, ro: u64 := 1000, 0x1000_0000_0000_0000;
    AmountOutFits(ri, ro, 16);
    AmountOutFits(ri, ro, 8);
    DivModUnique(997 * 8 * ro, U64, 498, 0x8000_0000_0000_0000);
    DivModUnique(997 * 16 * ro, U64, 997, 0);
    DivMeaning(0x8000_0000_0000_0000, 1000 * 1000 + 997 * 8);
    BelowQuotient(1, 0x8000_0000_0000_0000, 1000 * 1000 + 997 * 8);
  }

  // ---- swapping back ----

  /** Selling the proceeds of a swap never returns more than was put in. */
  lemma SwapBackNeverProfits(ri: u64, ro: u64, x: u64, minOut: u64, minBack: u64)
    requires SwapFits(ri, x)
    ensures var there := Swap(ri, ro, x, minOut);
            SwapFits(there.reserveOut, there.finalOut) ==>
              Swap(there.reserveOut, there.reserveIn, there.finalOut, minBack).finalOut <= there.finalIn
  {
    hide Swap;
    var there := Swap(ri, ro, x, minOut);
    var out := there.finalOut;
    PriceBound(ri, ro, x, minOut);
    FinalIn(ri, ro, x, minOut);
    if SwapFits(there.reserveOut, out) {
      var back := Swap(there.reserveOut, there.reserveIn, out, minBack);
      PriceBound(there.reserveOut, there.reserveIn, out, minBack);
      FinalIn(there.reserveOut, there.reserveIn, out, minBack);
      ProductGrows(ri, ro, there.finalIn, out);
      ProductGrows(ro - out, there.reserveIn, back.finalIn, back.finalOut);
      if back.finalOut > 0 {
        if ro == 0 {
          NothingForNothing(0, there.reserveIn, minBack);
        } else {
          assert ri * ro <= (ri + there.finalIn - back.finalOut) * ro;
          CancelLe(ri, ri + there.finalIn - back.finalOut, ro);
        }
      }
    }
  }

  // ---- what a liquidity share is worth ----

  /** The square of the pool's value per LP token, `ra * rb / ts^2`, did not fall from p to q. */
  predicate ShareKept(p: Pool, q: Pool) {
    p.ra * p.rb * (q.ts * q.ts) <= q.ra * q.rb * (p.ts * p.ts)
  }

  lemma ShareKeptTransitive(p: Pool, q: Pool, r: Pool)
    requires ShareKept(p, q) && ShareKept(q, r) && q.ts > 0
    ensures ShareKept(p, r)
  {
    RatiosCompose(p.ra * p.rb, p.ts * p.ts, q.ra * q.rb, q.ts * q.ts, r.ra * r.rb, r.ts * r.ts);
  }

  /** kp / sp <= kq / sq <= kr / sr, multiplied out. */
  lemma RatiosCompose(kp: nat, sp: nat, kq: nat, sq: nat, kr: nat, sr: nat)
    requires kp * sq <= kq * sp && kq * sr <= kr * sq && sq > 0
    ensures kp * sr <= kr * sp
  {
    MulLe(kp * sq, kq * sp, sr);
    MulLe(kq * sr, kr * sq, sp);
    assert kp * sq * sr == (kp * sr) * sq;
    assert kq * sp * sr == kq * sr * sp;
    assert kr * sq * sp == (kr * sp) * sq;
    CancelLe(kp * sr, kr * sp, sq);
  }

  lemma Regroup(a: nat, b: nat, c: nat, d: nat)
    ensures (a * b) * (c * d) == (a * c) * (b * d)
  {
    MulAssoc(a * b, c, d);
    MulAssoc(a * c, b, d);
    assert a * b * c == a * c * b;
  }

  lemma ProductsOrdered(a: nat, b: nat, c: nat, d: nat)
    requires a <= c && b <= d
    ensures a * b <= c * d
  {
    MulLe(a, c, b);
    MulLe(b, d, c);
  }

  /** Each reserve on its own keeps its share when reserve times old supply covers the new supply. */
  lemma SharesMultiply(p: Pool, q: Pool)
    requires p.ra * q.ts <= q.ra * p.ts && p.rb * q.ts <= q.rb * p.ts
    ensures ShareKept(p, q)
  {
    ProductsOrdered(p.ra * q.ts, p.rb * q.ts, q.ra * p.ts, q.rb * p.ts);
    Regroup(p.ra, p.rb, q.ts, q.ts);
    Regroup(q.ra, q.rb, p.ts, p.ts);
  }

  /** `direction` 0 trades A for B, anything else B for A. */
  function SwapPool(p: Pool, aToB: bool, receipt: u64, minOut: u64): Pool {
    if aToB then var o := Swap(p.ra, p.rb, receipt, minOut); p.(ra := o.reserveIn, rb := o.reserveOut)
    else var o := Swap(p.rb, p.ra, receipt, minOut); p.(rb := o.reserveIn, ra := o.reserveOut)
  }

  lemma SwapKeepsShares(p: Pool, aToB: bool, receipt: u64, minOut: u64)
    requires SwapFits(if aToB then p.ra else p.rb, receipt)
    ensures ShareKept(p, SwapPool(p, aToB, receipt, minOut))
  {
    hide Swap;
    var q := SwapPool(p, aToB, receipt, minOut);
    if aToB {
      ConstantProduct(p.ra, p.rb, receipt, minOut);
    } else {
      ConstantProduct(p.rb, p.ra, receipt, minOut);
    }
    MulLe(p.ra * p.rb, q.ra * q.rb, p.ts * p.ts);
  }

  /** Nothing the deposit adds to wraps. The products behind the minted amount may. */
  predicate AddFits(p: Pool, receiptA: u64, receiptB: u64, minted: nat) {
    p.ra + receiptA < U64 && p.rb + receiptB < U64 && p.ts + minted < U64
  }

  /** Minting is proportional to either reserve, rounded in the pool's favour. */
  lemma MintBound(p: Pool, x: u64, y: u64, userLp: u64)
    requires p.ts >= 1
    ensures var lp := Add(p, x, y, userLp).minted;
            lp * p.ra <= x * p.ts && lp * p.rb <= y * p.ts
  {
    hide Wrap, Div;
    var lp := Add(p, x, y, userLp).minted;
    QuotientBound(x * p.ts, p.ra);
    QuotientBound(y * p.ts, p.rb);
    MulLe(lp, Div(Wrap(x * p.ts), Wrap(p.ra + 1)), p.ra);
    MulLe(lp, Div(Wrap(y * p.ts), Wrap(p.rb + 1)), p.rb);
  }

  lemma QuotientBound(n: nat, r: u64)
    ensures Div(Wrap(n), Wrap(r + 1)) * r <= n
  {
    var q := Div(Wrap(n), Wrap(r + 1));
    WrapLe(n);
    if r + 1 < U64 {
      MulLe(r, r + 1, q);
    }
  }

  lemma AddUnwrapped(p: Pool, x: u64, y: u64, userLp: u64)
    requires AddFits(p, x, y, Add(p, x, y, userLp).minted)
    ensures var o := Add(p, x, y, userLp); o.pool == Pool(p.ra + x, p.rb + y, p.ts + o.minted)
  {
    hide Wrap, Div;
    WrapSmall(p.ra + x);
    WrapSmall(p.rb + y);
    WrapSmall(p.ts + Add(p, x, y, userLp).minted);
  }

  /** If the minted tokens cost at least their share, so does the whole. */
  lemma Grown(reserve: nat, supply: nat, x: nat, lp: nat)
    requires lp * reserve <= x * supply
    ensures reserve * (supply + lp) <= (reserve + x) * supply
  {
    assert reserve * (supply + lp) == reserve * supply + lp * reserve;
    assert (reserve + x) * supply == reserve * supply + x * supply;
  }

  lemma Shrunk(reserve: nat, supply: nat, burn: nat, out: nat)
    requires out * supply <= reserve * burn && out <= reserve && burn <= supply
    ensures reserve * (supply - burn) <= (reserve - out) * supply
  {
    assert reserve * (supply - burn) == reserve * supply - reserve * burn;
    assert (reserve - out) * supply == reserve * supply - out * supply;
  }

  lemma AddKeepsShares(p: Pool, x: u64, y: u64, userLp: u64)
    requires p.ts >= 1 && AddFits(p, x, y, Add(p, x, y, userLp).minted)
    ensures ShareKept(p, Add(p, x, y, userLp).pool)
  {
    hide Add, ShareKept;
    var o := Add(p, x, y, userLp);
    MintBound(p, x, y, userLp);
    AddUnwrapped(p, x, y, userLp);
    Grown(p.ra, p.ts, x, o.minted);
    Grown(p.rb, p.ts, y, o.minted);
    SharesMultiply(p, o.pool);
  }

  /** A withdrawal pays at most the burned share of each reserve, and never more than the reserve. */
  lemma WithdrawalBound(p: Pool, burn: u64, userLp: u64)
    requires userLp <= p.ts
    ensures var o := Remove(p, burn, userLp);
            && o.outA <= p.ra && o.outB <= p.rb
            && o.pool.ra == p.ra - o.outA && o.pool.rb == p.rb - o.outB
            && (userLp >= burn ==> o.outA * p.ts <= p.ra * burn && o.outB * p.ts <= p.rb * burn)
  {
    hide Wrap, Div;
    if userLp >= burn {
      WithdrawnWithin(p.ra, burn, p.ts);
      WithdrawnWithin(p.rb, burn, p.ts);
      WrapSmall(p.ra - Div(Wrap(p.ra * burn), Wrap(p.ts + 1)));
      WrapSmall(p.rb - Div(Wrap(p.rb * burn), Wrap(p.ts + 1)));
    }
  }

  lemma WithdrawnWithin(reserve: u64, burn: u64, supply: u64)
    requires burn <= supply
    ensures var out := Div(Wrap(reserve * burn), Wrap(supply + 1)); out * supply <= reserve * burn && out <= reserve
  {
    QuotientBound(reserve * burn, supply);
    hide Wrap;
    WrapLe(reserve * burn);
    ShareWithin(Div(Wrap(reserve * burn), Wrap(supply + 1)), reserve, burn, supply);
  }

  lemma ShareWithin(out: nat, reserve: nat, burn: nat, supply: nat)
    requires out * supply <= reserve * burn && burn <= supply
    requires supply == 0 ==> out == 0
    ensures out <= reserve
  {
    if supply > 0 {
      MulLe(burn, supply, reserve);
      CancelLe(out, reserve, supply);
    }
  }

  lemma RemainingSupply(p: Pool, burn: u64, userLp: u64)
    requires userLp <= p.ts
    ensures var o := Remove(p, burn, userLp);
            if userLp >= burn then o.pool.ts == p.ts - burn && o.userLp == userLp - burn
            else o == RemoveOutcome(0, 0, p, userLp)
  {
    hide Wrap, Div;
    if userLp >= burn {
      WrapSmall(p.ts - burn);
      WrapSmall(userLp - burn);
    }
  }

  lemma RemoveKeepsShares(p: Pool, burn: u64, userLp: u64)
    requires userLp <= p.ts
    ensures ShareKept(p, Remove(p, burn, userLp).pool)
  {
    hide Remove, ShareKept;
    var o := Remove(p, burn, userLp);
    WithdrawalBound(p, burn, userLp);
    RemainingSupply(p, burn, userLp);
    if userLp >= burn {
      Shrunk(p.ra, p.ts, burn, o.outA);
      Shrunk(p.rb, p.ts, burn, o.outB);
      SharesMultiply(p, o.pool);
    } else {
      SharesMultiply(p, p);
    }
  }

  // ---- adding and removing again ----

  /** What a depositor gets back by burning exactly what the deposit minted. */
  function RoundTrip(p: Pool, x: u64, y: u64, userLp: u64): RemoveOutcome {
    var added := Add(p, x, y, userLp);
    Remove(added.pool, added.minted, added.userLp)
  }

  lemma RoundTripUnfolds(p: Pool, x: u64, y: u64, userLp: u64)
    requires AddFits(p, x, y, Add(p, x, y, userLp).minted) && userLp <= p.ts
    ensures var lp, ts := Add(p, x, y, userLp).minted, p.ts + Add(p, x, y, userLp).minted;
            && RoundTrip(p, x, y, userLp).outA == Div(Wrap((p.ra + x) * lp), Wrap(ts + 1))
            && RoundTrip(p, x, y, userLp).outB == Div(Wrap((p.rb + y) * lp), Wrap(ts + 1))
  {
    hide Wrap, Div;
    AddUnwrapped(p, x, y, userLp);
    WrapSmall(userLp + Add(p, x, y, userLp).minted);
  }

  lemma ShareBack(reserve: nat, x: nat, lp: u64, ts: u64)
    requires lp * reserve <= x * ts && ts > 0 && ts + lp < U64
    ensures Div(Wrap((reserve + x) * lp), Wrap(ts + lp + 1)) <= x
  {
    hide Wrap, Div;
    QuotientBound((reserve + x) * lp, ts + lp);
    ShareOfGrown(reserve, x, lp, ts, Div(Wrap((reserve + x) * lp), Wrap(ts + lp + 1)));
  }

  lemma ShareOfGrown(reserve: nat, x: nat, lp: nat, ts: nat, out: nat)
    requires lp * reserve <= x * ts && out * (ts + lp) <= (reserve + x) * lp && ts > 0
    ensures out <= x
  {
    assert (reserve + x) * lp == lp * reserve + x * lp;
    assert x * (ts + lp) == x * ts + x * lp;
    CancelLe(out, x, ts + lp);
  }

  /** From a pool with LP tokens outstanding, adding and burning what was minted returns at most
      each deposit, whatever the products wrap to. */
  lemma AddRemoveNeverProfits(p: Pool, x: u64, y: u64, userLp: u64)
    requires p.ts >= 1 && userLp <= p.ts && AddFits(p, x, y, Add(p, x, y, userLp).minted)
    ensures RoundTrip(p, x, y, userLp).outA <= x && RoundTrip(p, x, y, userLp).outB <= y
  {
    hide Add, Div, RoundTrip, Wrap;
    var lp := Add(p, x, y, userLp).minted;
    MintBound(p, x, y, userLp);
    RoundTripUnfolds(p, x, y, userLp);
    ShareBack(p.ra, x, lp, p.ts);
    ShareBack(p.rb, y, lp, p.ts);
  }

  /** A depositor into a pool without LP tokens is minted x tokens and then owns x of x + 1 shares of a
      reserve that held `left` before the deposit. The share, of a product that may wrap, is within the
      deposit. */
  predicate ShareWithinDeposit(left: nat, x: u64, deposit: nat) {
    Wrap((left + deposit) * x) < (deposit + 1) * (x + 1)
  }

  /** From a pool without LP tokens the round trip returns at most the deposits exactly when both shares
      are within them, whatever the products wrap to. */
  lemma FirstDepositProfitsIff(p: Pool, x: u64, y: u64)
    requires p.ts == 0 && AddFits(p, x, y, x)
    ensures (RoundTrip(p, x, y, 0).outA <= x && RoundTrip(p, x, y, 0).outB <= y)
       <==> (ShareWithinDeposit(p.ra, x, x) && ShareWithinDeposit(p.rb, x, y))
  {
    hide Wrap, Div, RoundTrip, Add, ShareWithinDeposit;
    FirstMint(p, x, y);
    RoundTripUnfolds(p, x, y, 0);
    FirstShareIff(p.ra, x, x);
    FirstShareIff(p.rb, x, y);
  }

  lemma FirstMint(p: Pool, x: u64, y: u64)
    requires p.ts == 0
    ensures Add(p, x, y, 0).minted == x
  {
    hide Wrap, Div;
  }

  /** When x + 1 wraps to 0 the payout is 0, and the bound exceeds any word. */
  lemma FirstShareIff(left: nat, x: u64, deposit: nat)
    ensures Div(Wrap((left + deposit) * x), Wrap(0 + x + 1)) <= deposit <==> ShareWithinDeposit(left, x, deposit)
  {
    hide Wrap, Div;
    if x + 1 < U64 {
      WrapSmall(x + 1);
      QuotientIff(Wrap((left + deposit) * x), x + 1, deposit);
    } else {
      WrapAll();
      DivByZero(Wrap((left + deposit) * x));
      MulLe(1, deposit + 1, x + 1);
    }
  }

  lemma WrapAll()
    ensures Wrap(U64) == 0
  {
  }

  lemma DivByZero(n: nat)
    ensures Div(n, 0) == 0
  {
  }

  /** Leftovers this small leave nothing to gain. */
  predicate LeftoversHarmless(p: Pool, x: u64, y: u64) {
    (x == 0 || p.ra <= 2) && LeftoverCovered(p.rb, x, y)
  }

  predicate LeftoverCovered(left: nat, x: nat, deposit: nat) {
    left * x <= x + deposit
  }

  /** Covered leftovers keep the share within the deposit; when the product does not wrap, only they do. */
  lemma LeftoverShare(left: nat, x: u64, deposit: nat)
    ensures LeftoverCovered(left, x, deposit) ==> ShareWithinDeposit(left, x, deposit)
    ensures (left + deposit) * x < U64 ==> (ShareWithinDeposit(left, x, deposit) <==> LeftoverCovered(left, x, deposit))
  {
    hide Wrap;
    WrapLe((left + deposit) * x);
    assert (deposit + 1) * (x + 1) == deposit * x + x + deposit + 1;
    assert (left + deposit) * x == left * x + deposit * x;
    if (left + deposit) * x < U64 {
      WrapSmall((left + deposit) * x);
    }
  }

  lemma TwiceOrLess(left: nat, x: nat)
    ensures LeftoverCovered(left, x, x) <==> (x == 0 || left <= 2)
  {
    if left > 2 {
      MulLe(3, left, x);
    } else {
      MulLe(left, 2, x);
    }
  }

  /** Harmless leftovers suffice for every deposit. */
  lemma HarmlessLeftoversNeverProfit(p: Pool, x: u64, y: u64)
    requires p.ts == 0 && AddFits(p, x, y, x) && LeftoversHarmless(p, x, y)
    ensures RoundTrip(p, x, y, 0).outA <= x && RoundTrip(p, x, y, 0).outB <= y
  {
    hide RoundTrip, ShareWithinDeposit, LeftoverCovered;
    FirstDepositProfitsIff(p, x, y);
    TwiceOrLess(p.ra, x);
    LeftoverShare(p.ra, x, x);
    LeftoverShare(p.rb, x, y);
  }

  /** When neither product wraps, they are necessary too. */
  lemma UnwrappedDepositProfitsIff(p: Pool, x: u64, y: u64)
    requires p.ts == 0 && AddFits(p, x, y, x) && (p.ra + x) * x < U64 && (p.rb + y) * x < U64
    ensures (RoundTrip(p, x, y, 0).outA <= x && RoundTrip(p, x, y, 0).outB <= y) <==> LeftoversHarmless(p, x, y)
  {
    hide RoundTrip, ShareWithinDeposit, LeftoverCovered;
    FirstDepositProfitsIff(p, x, y);
    TwiceOrLess(p.ra, x);
    LeftoverShare(p.ra, x, x);
    LeftoverShare(p.rb, x, y);
  }

  /** A product that wraps to 0 pays nothing, however much was left. */
  lemma WrappedShareForgivesLeftovers()
    ensures var p := Pool(0, 0x1_0000_0000, 0);
            && !LeftoversHarmless(p, 0x1_0000_0000, 0)
            && RoundTrip(p, 0x1_0000_0000, 0, 0).outB == 0
  {
    hide Wrap, Div, RoundTrip, Add;
    var p, x: u64 := Pool(0, 0x1_0000_0000, 0), 0x1_0000_0000;
    FirstMint(p, x, 0);
    RoundTripUnfolds(p, x, 0, 0);
    assert (p.rb + 0) * x == U64;
    WrapAll();
    assert Div(0, Wrap(0 + x + 1)) == 0;
  }

  /** Such a pool is reachable: deposit 1 and 1000 into an empty pool, burn the one LP token, and 500 of
      the second token stay behind. The next depositor of 1000 and nothing takes 499 of them. */
  lemma ProfitableLeftoversAreReachable()
    ensures var first := Add(Pool(0, 0, 0), 1, 1000, 0);
            var left := Remove(first.pool, first.minted, first.userLp);
            && left.userLp == 0 && left.pool == Pool(1, 500, 0)
            && RoundTrip(left.pool, 1000, 0, 0).outB == 499
  {
    hide Add, Remove, RoundTrip;
    SmallFirstDeposit();
    SmallBurn();
    NextDepositor();
  }

  lemma SmallFirstDeposit()
    ensures Add(Pool(0, 0, 0), 1, 1000, 0) == AddOutcome(Pool(1, 1000, 1), 1, 1)
  {
    FirstMint(Pool(0, 0, 0), 1, 1000);
    hide Div;
  }

  lemma SmallBurn()
    ensures Remove(Pool(1, 1000, 1), 1, 1) == RemoveOutcome(0, 500, Pool(1, 500, 0), 0)
  {
    DivMeaning(1, 2);
    DivMeaning(1000, 2);
    hide Div;
  }

  lemma NextDepositor()
    ensures RoundTrip(Pool(1, 500, 0), 1000, 0, 0).outB == 499
  {
    FirstMint(Pool(1, 500, 0), 1000, 0);
    RoundTripUnfolds(Pool(1, 500, 0), 1000, 0, 0);
    DivMeaning(500000, 1001);
    hide Add, RoundTrip, Div;
  }

  lemma QuotientIff(n: nat, d: nat, bound: nat)
    requires d > 0
    ensures Div(n, d) <= bound <==> n < (bound + 1) * d
  {
    if Div(n, d) <= bound {
      MulLe(Div(n, d), bound, d);
      assert n < Div(n, d) * d + d;
      assert (bound + 1) * d == bound * d + d;
    } else {
      MulLe(bound + 1, Div(n, d), d);
    }
  }

  /** A wholly empty pool never profits its first depositor. */
  lemma EmptyPoolNeverProfits(x: u64, y: u64)
    ensures var back := RoundTrip(Pool(0, 0, 0), x, y, 0); back.outA <= x && back.outB <= y
  {
    hide RoundTrip;
    HarmlessLeftoversNeverProfit(Pool(0, 0, 0), x, y);
  }

  // ---- what the three graphs compute, exactly ----

  /** q is the largest number whose product with d does not exceed n; a zero divisor gives 0. */
  predicate IsQuotient(q: nat, n: nat, d: nat) {
    if d == 0 then q == 0 else q * d <= n < (q + 1) * d
  }

  lemma DivIsQuotient(n: nat, d: nat)
    ensures IsQuotient(Div(n, d), n, d)
  {
    if d > 0 {
      QuotientIff(n, d, Div(n, d));
    }
  }

  lemma WrapInner(a: nat, b: nat, c: nat)
    ensures Wrap(Wrap(a) + Wrap(b)) == Wrap(a + b)
    ensures Wrap(Wrap(a) * c) == Wrap(a * c)
  {
    var qa, qb := a / U64, b / U64;
    ModAddMultiple(Wrap(a) + Wrap(b), qa + qb, U64);
    assert a + b == Wrap(a) + Wrap(b) + (qa + qb) * U64;
    WrapScaled(qa, Wrap(a), c);
  }

  lemma WrapScaled(q: nat, r: nat, c: nat)
    ensures Wrap((q * U64 + r) * c) == Wrap(r * c)
  {
    ModAddMultiple(r * c, q * c, U64);
    assert (q * U64 + r) * c == r * c + q * c * U64;
  }

  /** A swap pays the quotient of the fee-adjusted input's product with the other reserve by the
      fee-adjusted sum, both reduced to a word once, if that reaches the minimum; else nothing happens to
      the reserves. */
  lemma SwapExact(ri: u64, ro: u64, x: u64, minOut: u64, out: nat)
    requires IsQuotient(out, 997 * x * ro % U64, (1000 * ri + 997 * x) % U64)
    ensures Swap(ri, ro, x, minOut)
         == if out >= minOut then SwapOutcome(x, out % U64, (ri + x) % U64, (ro - out) % U64) else SwapOutcome(0, 0, ri, ro)
  {
    hide Div, AmountOut, IsQuotient;
    PayoutExact(ri, ro, x, out);
    SwapFollowsPayout(ri, ro, x, minOut);
    WrapSmall(out);
  }

  lemma SwapFollowsPayout(ri: u64, ro: u64, x: u64, minOut: u64)
    ensures var out := AmountOut(ri, ro, x);
            Swap(ri, ro, x, minOut) ==
            if out >= minOut then SwapOutcome(x, out, (ri + x) % U64, (ro - out) % U64) else SwapOutcome(0, 0, ri, ro)
  {
    hide AmountOut;
    WrapSmall(ri);
    WrapSmall(ro);
  }

  lemma PayoutExact(ri: u64, ro: u64, x: u64, out: nat)
    requires IsQuotient(out, 997 * x * ro % U64, (1000 * ri + 997 * x) % U64)
    ensures AmountOut(ri, ro, x) == out
  {
    hide Div, IsQuotient, Wrap;
    WrapIsMod(997 * x * ro);
    WrapIsMod(1000 * ri + 997 * x);
    WrapInner(x * 997, 0, ro);
    WrapInner(ri * 1000, x * 997, 0);
    assert x * 997 * ro == 997 * x * ro;
    DivIsQuotient(Wrap(997 * x * ro), Wrap(1000 * ri + 997 * x));
    QuotientUnique(out, Div(Wrap(997 * x * ro), Wrap(1000 * ri + 997 * x)), Wrap(997 * x * ro), Wrap(1000 * ri + 997 * x));
  }

  lemma WrapIsMod(n: int)
    ensures Wrap(n) == n % U64
  {
  }

  lemma QuotientUnique(q: nat, q': nat, n: nat, d: nat)
    requires IsQuotient(q, n, d) && IsQuotient(q', n, d)
    ensures q == q'
  {
    if q < q' {
      MulLe(q + 1, q', d);
    } else if q' < q {
      MulLe(q' + 1, q, d);
    }
  }

  /** With out paid for x, the product of the reserves, counting 997 of every 1000 units paid in, does not
      fall. */
  predicate KeepsFeeProduct(ri: nat, ro: nat, x: nat, out: nat) {
    1000 * ri * ro <= (1000 * ri + 997 * x) * (ro - out)
  }

  /** A swap pays as much as any that keeps the fee-adjusted product, and no more. */
  lemma SwapPaysMost(ri: u64, ro: u64, x: u64, out: nat)
    requires SwapFits(ri, x) && 997 * x * ro < U64 && 1000 * ri + 997 * x > 0
    ensures KeepsFeeProduct(ri, ro, x, out) <==> out <= AmountOut(ri, ro, x)
  {
    hide Div, AmountOut;
    var d, n := 1000 * ri + 997 * x, 997 * x * ro;
    AmountOutFits(ri, ro, x);
    WrapSmall(n);
    var q := Div(n, d);
    QuotientIff(n, d, q);
    assert d * (ro - out) == 1000 * ri * ro + n - out * d;
    if out <= q {
      MulLe(out, q, d);
    } else {
      MulLe(q + 1, out, d);
    }
  }

  /** A deposit into a pool with shares mints the largest number that both receipts cover, rounding every
      reserve up by one; into a pool without shares it mints the first receipt. */
  lemma AddExact(p: Pool, x: u64, y: u64, userLp: u64, m: nat)
    requires p.ra + 1 < U64 && p.rb + 1 < U64
    ensures var o := Add(p, x, y, userLp);
            && (p.ts == 0 ==> o.minted == x)
            && (p.ts > 0 ==> (m <= o.minted <==> m * (p.ra + 1) <= x * p.ts % U64 && m * (p.rb + 1) <= y * p.ts % U64))
            && o.pool == Pool((p.ra + x) % U64, (p.rb + y) % U64, (p.ts + o.minted) % U64)
            && o.userLp == (userLp + o.minted) % U64
  {
    hide Div;
    WrapSmall(p.ra + 1);
    WrapSmall(p.rb + 1);
    WithinQuotient(m, Wrap(x * p.ts), p.ra + 1);
    WithinQuotient(m, Wrap(y * p.ts), p.rb + 1);
  }

  lemma WithinQuotient(m: nat, n: nat, d: nat)
    requires d > 0
    ensures m <= Div(n, d) <==> m * d <= n
  {
    hide Div;
    QuotientIff(n, d, Div(n, d));
    if m <= Div(n, d) {
      MulLe(m, Div(n, d), d);
    } else {
      MulLe(Div(n, d) + 1, m, d);
    }
  }

  /** A withdrawal covered by the position pays the largest amounts the burned share is worth, rounding the
      supply up by one; any other changes nothing. */
  lemma RemoveExact(p: Pool, burn: u64, userLp: u64, m: nat)
    requires p.ts + 1 < U64
    ensures var o := Remove(p, burn, userLp);
            && (burn > userLp ==> o == RemoveOutcome(0, 0, p, userLp))
            && (burn <= userLp ==>
              && (m <= o.outA <==> m * (p.ts + 1) <= p.ra * burn % U64)
              && (m <= o.outB <==> m * (p.ts + 1) <= p.rb * burn % U64)
              && o.pool == Pool((p.ra - o.outA) % U64, (p.rb - o.outB) % U64, (p.ts - burn) % U64)
              && o.userLp == userLp - burn)
  {
    hide Div;
    WrapSmall(p.ts + 1);
    WithinQuotient(m, Wrap(p.ra * burn), p.ts + 1);
    WithinQuotient(m, Wrap(p.rb * burn), p.ts + 1);
    if burn <= userLp {
      WrapSmall(userLp - burn);
    }
  }
}
