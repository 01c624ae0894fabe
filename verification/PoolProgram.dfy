/** The pool program: its instruction handlers as transitions of a world of two token ledgers, the
    encrypted reserves and the liquidity positions, and the handlers themselves, step by step. */
module PoolProgram {
  import opened FheTypes
  import opened Amm
  import opened TokenLedger

  /** Index of the pool's vault in each ledger, and the program-derived address that owns both. */
  const VAULT: nat := 0
  const POOL_PDA: nat := 0

  /** `derived` holds the owner and bump of every position's derived address in use. */
  datatype World = World(initialized: bool, a: seq<Account>, b: seq<Account>, pool: Pool, lp: seq<Account>,
                         derived: set<(nat, nat)>)

  datatype ProgramError = UninitializedAccount | InvalidArgument | TokenProgramError | AccountInUse

  datatype Outcome = Done(world: World) | Rejected(error: ProgramError)

  /** What the runtime and account creation guarantee: only the pool owns its vaults. */
  predicate VaultsOwned(w: World) {
    |w.a| > 0 && |w.b| > 0 && w.a[VAULT].owner == POOL_PDA && w.b[VAULT].owner == POOL_PDA
  }

  /** Right after `create_pool`: empty vaults next to whatever accounts the two mints have. */
  function Created(a: seq<Account>, b: seq<Account>): World {
    World(true, [Account(POOL_PDA, 0)] + a, [Account(POOL_PDA, 0)] + b, Pool(0, 0, 0), [], {})
  }

  // ---- handlers as transitions ----

  function WithLedgers(w: World, aToB: bool, ledgerIn: seq<Account>, ledgerOut: seq<Account>): World {
    if aToB then w.(a := ledgerIn, b := ledgerOut) else w.(b := ledgerIn, a := ledgerOut)
  }

  /** Receipt-gated deposit, swap graph on the receipt, payout from the other vault. */
  function SwapStep(w: World, payer: nat, aToB: bool, from: nat, to: nat, amountIn: u64, minOut: u64): Outcome
  {
    if !w.initialized then Rejected(UninitializedAccount)
    else
      var (tokensIn, tokensOut) := if aToB then (w.a, w.b) else (w.b, w.a);
      var deposit := ReceiptTransferOn(tokensIn, from, VAULT, payer, amountIn);
      if deposit.None? then Rejected(TokenProgramError)
      else
        var receipt := deposit.value.1;
        var paid := TransferOn(tokensOut, VAULT, to, POOL_PDA, SwapOf(w, aToB, receipt, minOut).finalOut);
        if paid.None? then Rejected(TokenProgramError)
        else Done(WithLedgers(w, aToB, deposit.value.0, paid.value).(pool := SwapPool(w.pool, aToB, receipt, minOut)))
  }

  /** The swap graph on the pool's own reserves. */
  function SwapOf(w: World, aToB: bool, receipt: u64, minOut: u64): SwapOutcome {
    if aToB then Swap(w.pool.ra, w.pool.rb, receipt, minOut) else Swap(w.pool.rb, w.pool.ra, receipt, minOut)
  }

  /** The payer owns the liquidity position. */
  predicate OwnsPosition(lp: seq<Account>, position: nat, payer: nat) {
    position < |lp| && lp[position].owner == payer
  }

  /** Two receipt-gated deposits, then the liquidity graph on both receipts. */
  function AddStep(w: World, payer: nat, fromA: nat, fromB: nat, position: nat, amountA: u64, amountB: u64): Outcome
  {
    if !w.initialized then Rejected(UninitializedAccount)
    else if !OwnsPosition(w.lp, position, payer) then Rejected(InvalidArgument)
    else
      var depositA := ReceiptTransferOn(w.a, fromA, VAULT, payer, amountA);
      var depositB := ReceiptTransferOn(w.b, fromB, VAULT, payer, amountB);
      if depositA.None? || depositB.None? then Rejected(TokenProgramError)
      else
        var o := Add(w.pool, depositA.value.1, depositB.value.1, w.lp[position].balance);
        Done(w.(a := depositA.value.0, b := depositB.value.0, pool := o.pool, lp := SetBalance(w.lp, position, o.userLp)))
  }

  /** The withdrawal graph, then both payouts. */
  function RemoveStep(w: World, payer: nat, toA: nat, toB: nat, position: nat, burn: u64): Outcome
  {
    if !w.initialized then Rejected(UninitializedAccount)
    else if !OwnsPosition(w.lp, position, payer) then Rejected(InvalidArgument)
    else
      var o := Remove(w.pool, burn, w.lp[position].balance);
      var paidA := TransferOn(w.a, VAULT, toA, POOL_PDA, o.outA);
      var paidB := TransferOn(w.b, VAULT, toB, POOL_PDA, o.outB);
      if paidA.None? || paidB.None? then Rejected(TokenProgramError)
      else Done(w.(a := paidA.value, b := paidB.value, pool := o.pool, lp := SetBalance(w.lp, position, o.userLp)))
  }

  /** The pool's address is derived from its mints: creating it a second time fails. */
  function CreatePoolStep(w: World): Outcome {
    if w.initialized then Rejected(AccountInUse) else Done(Created(w.a, w.b))
  }

  /** A position's address is derived from its owner and a bump the caller chooses. */
  function CreatePositionStep(w: World, owner: nat, bump: nat): Outcome {
    if !w.initialized then Rejected(UninitializedAccount)
    else if (owner, bump) in w.derived then Rejected(AccountInUse)
    else Done(w.(lp := w.lp + [Account(owner, 0)], derived := w.derived + {(owner, bump)}))
  }

  // ---- when a transition happens, and what it leaves alone ----

  /** Swapping needs a pool, the payer's own token account, the two vaults, the output vault in the pool's
      name, and an account to pay to. */
  lemma SwapAccepted(w: World, payer: nat, aToB: bool, from: nat, to: nat, amountIn: u64, minOut: u64)
    ensures var r, l, l' := SwapStep(w, payer, aToB, from, to, amountIn, minOut), if aToB then w.a else w.b, if aToB then w.b else w.a;
            && (r == Rejected(UninitializedAccount) <==> !w.initialized)
            && (r.Done? <==> w.initialized && from < |l| && 0 < |l| && l[from].owner == payer
                             && 0 < |l'| && to < |l'| && l'[0].owner == POOL_PDA)
            && (w.initialized && !r.Done? ==> r == Rejected(TokenProgramError))
  {
    hide SetBalance, TransferGraph, TransferReceiptGraph, SwapOf, SwapPool;
  }

  /** Depositing needs a pool, a position and a token account on each side, all of them the payer's. */
  lemma AddAccepted(w: World, payer: nat, fromA: nat, fromB: nat, position: nat, amountA: u64, amountB: u64)
    ensures var r := AddStep(w, payer, fromA, fromB, position, amountA, amountB);
            && (r == Rejected(UninitializedAccount) <==> !w.initialized)
            && (r == Rejected(InvalidArgument) <==> w.initialized && !(position < |w.lp| && w.lp[position].owner == payer))
            && (r.Done? <==> w.initialized && position < |w.lp| && w.lp[position].owner == payer
                             && 0 < |w.a| && fromA < |w.a| && w.a[fromA].owner == payer
                             && 0 < |w.b| && fromB < |w.b| && w.b[fromB].owner == payer)
            && (r.Rejected? ==> r.error != AccountInUse)
  {
    hide SetBalance, TransferGraph, TransferReceiptGraph, Add;
  }

  /** Withdrawing needs a pool, the payer's own position, both vaults in the pool's name, and accounts to
      pay to; whose they are does not matter. */
  lemma RemoveAccepted(w: World, payer: nat, toA: nat, toB: nat, position: nat, burn: u64)
    ensures var r := RemoveStep(w, payer, toA, toB, position, burn);
            && (r == Rejected(UninitializedAccount) <==> !w.initialized)
            && (r == Rejected(InvalidArgument) <==> w.initialized && !(position < |w.lp| && w.lp[position].owner == payer))
            && (r.Done? <==> w.initialized && position < |w.lp| && w.lp[position].owner == payer
                             && 0 < |w.a| && toA < |w.a| && w.a[0].owner == POOL_PDA
                             && 0 < |w.b| && toB < |w.b| && w.b[0].owner == POOL_PDA)
            && (r.Rejected? ==> r.error != AccountInUse)
  {
    hide SetBalance, TransferGraph, Remove;
  }

  /** A pool is created once, with empty vaults in front of the accounts there were and nothing else. */
  lemma PoolCreatedOnce(w: World)
    ensures CreatePoolStep(w).Done? <==> !w.initialized
    ensures w.initialized ==> CreatePoolStep(w) == Rejected(AccountInUse)
    ensures CreatePoolStep(w).Done? ==>
              var w' := CreatePoolStep(w).world;
              && w'.initialized && w'.a == [Account(POOL_PDA, 0)] + w.a && w'.b == [Account(POOL_PDA, 0)] + w.b
              && w'.pool == Pool(0, 0, 0) && w'.lp == [] && w'.derived == {}
  {
  }

  /** A position is created once for an owner and a bump, empty, in its owner's name, and next to the
      positions there were; nothing else changes. */
  lemma PositionCreatedOnce(w: World, owner: nat, bump: nat)
    ensures var r := CreatePositionStep(w, owner, bump);
            && (r == Rejected(UninitializedAccount) <==> !w.initialized)
            && (r == Rejected(AccountInUse) <==> w.initialized && (owner, bump) in w.derived)
            && (r.Done? ==>
              && r.world == w.(lp := w.lp + [Account(owner, 0)], derived := w.derived + {(owner, bump)})
              && CreatePositionStep(r.world, owner, bump) == Rejected(AccountInUse))
  {
  }

  // ---- the handlers ----

  /** The program's state on chain. A failing instruction is rolled back by the runtime. */
  class Program {
    const ledgerA: Ledger
    const ledgerB: Ledger
    var initialized: bool
    var reserveA: u64
    var reserveB: u64
    var totalSupply: u64
    var positions: seq<Account>
    var derived: set<(nat, nat)>

    constructor (ledgerA: Ledger, ledgerB: Ledger)
      requires ledgerA != ledgerB
      ensures Valid() && this.ledgerA == ledgerA && this.ledgerB == ledgerB
      ensures Now() == World(false, ledgerA.accounts, ledgerB.accounts, Pool(0, 0, 0), [], {})
    {
      this.ledgerA, this.ledgerB := ledgerA, ledgerB;
      initialized, reserveA, reserveB, totalSupply, positions, derived := false, 0, 0, 0, [], {};
    }

    predicate Valid() {
      ledgerA != ledgerB
    }

    function Now(): World
      reads this, ledgerA, ledgerB
    {
      World(initialized, ledgerA.accounts, ledgerB.accounts, Pool(reserveA, reserveB, totalSupply), positions, derived)
    }

    /** `create_pool`: fresh vaults owned by the pool, reserves and supply at zero. The model puts the
        vaults in front of the accounts that exist already. */
    method CreatePool() returns (error: Option<ProgramError>)
      requires Valid()
      modifies this, ledgerA, ledgerB
      ensures Follows(old(Now()), CreatePoolStep(old(Now())), error)
    {
      if initialized {
        return Some(AccountInUse);
      }
      ledgerA.accounts := [Account(POOL_PDA, 0)] + ledgerA.accounts;
      ledgerB.accounts := [Account(POOL_PDA, 0)] + ledgerB.accounts;
      reserveA, reserveB, totalSupply, positions, derived := 0, 0, 0, [], {};
      initialized := true;
      return None;
    }

    method Rollback(w: World)
      requires Valid()
      modifies this, ledgerA, ledgerB
      ensures Now() == w
    {
      initialized, positions, derived := w.initialized, w.lp, w.derived;
      ledgerA.accounts, ledgerB.accounts := w.a, w.b;
      reserveA, reserveB, totalSupply := w.pool.ra, w.pool.rb, w.pool.ts;
    }

    /** The state follows the transition, or is untouched when that rejects. */
    predicate Follows(before: World, outcome: Outcome, error: Option<ProgramError>)
      reads this, ledgerA, ledgerB
    {
      match outcome
      case Done(w) => error == None && Now() == w
      case Rejected(e) => error == Some(e) && Now() == before
    }

    method Swap(payer: nat, direction: nat, from: nat, to: nat, amountIn: u64, minOut: u64)
      returns (error: Option<ProgramError>)
      requires Valid()
      modifies this, ledgerA, ledgerB
      ensures Follows(old(Now()), SwapStep(old(Now()), payer, direction == 0, from, to, amountIn, minOut), error)
    {
      if !initialized {
        return Some(UninitializedAccount);
      }
      var before := Now();
      var aToB := direction == 0;
      var ledgerIn := if aToB then ledgerA else ledgerB;
      var ledgerOut := if aToB then ledgerB else ledgerA;
      // 1) deposit, with a receipt
      var ok, receipt := ledgerIn.TransferWithReceipt(from, VAULT, payer, amountIn);
      if !ok {
        return Some(TokenProgramError);
      }
      // 2) swap math against the receipt, overwriting the reserves
      var o := if aToB then Amm.Swap(reserveA, reserveB, receipt, minOut) else Amm.Swap(reserveB, reserveA, receipt, minOut);
      if aToB {
        reserveA, reserveB := o.reserveIn, o.reserveOut;
      } else {
        reserveB, reserveA := o.reserveIn, o.reserveOut;
      }
      // 3) payout, signed by the pool
      ok := ledgerOut.Transfer(VAULT, to, POOL_PDA, o.finalOut);
      if !ok {
        Rollback(before);
        return Some(TokenProgramError);
      }
      return None;
    }

    method AddLiquidity(payer: nat, fromA: nat, fromB: nat, position: nat, amountA: u64, amountB: u64)
      returns (error: Option<ProgramError>)
      requires Valid()
      modifies this, ledgerA, ledgerB
      ensures Follows(old(Now()), AddStep(old(Now()), payer, fromA, fromB, position, amountA, amountB), error)
    {
      if !initialized {
        return Some(UninitializedAccount);
      }
      if !OwnsPosition(positions, position, payer) {
        return Some(InvalidArgument);
      }
      var before := Now();
      // 1) and 2) deposits, with receipts
      var okA, receiptA := ledgerA.TransferWithReceipt(fromA, VAULT, payer, amountA);
      var okB, receiptB := ledgerB.TransferWithReceipt(fromB, VAULT, payer, amountB);
      if !okA || !okB {
        Rollback(before);
        return Some(TokenProgramError);
      }
      // 3) liquidity math against the receipts
      var o := Add(Pool(reserveA, reserveB, totalSupply), receiptA, receiptB, positions[position].balance);
      reserveA, reserveB, totalSupply := o.pool.ra, o.pool.rb, o.pool.ts;
      positions := SetBalance(positions, position, o.userLp);
      return None;
    }

    method RemoveLiquidity(payer: nat, toA: nat, toB: nat, position: nat, burn: u64)
      returns (error: Option<ProgramError>)
      requires Valid()
      modifies this, ledgerA, ledgerB
      ensures Follows(old(Now()), RemoveStep(old(Now()), payer, toA, toB, position, burn), error)
    {
      if !initialized {
        return Some(UninitializedAccount);
      }
      if !OwnsPosition(positions, position, payer) {
        return Some(InvalidArgument);
      }
      var before := Now();
      // 1) withdrawal math
      var o := Remove(Pool(reserveA, reserveB, totalSupply), burn, positions[position].balance);
      reserveA, reserveB, totalSupply := o.pool.ra, o.pool.rb, o.pool.ts;
      positions := SetBalance(positions, position, o.userLp);
      // 2) and 3) payouts, signed by the pool
      var okA := ledgerA.Transfer(VAULT, toA, POOL_PDA, o.outA);
      var okB := ledgerB.Transfer(VAULT, toB, POOL_PDA, o.outB);
      if !okA || !okB {
        Rollback(before);
        return Some(TokenProgramError);
      }
      return None;
    }

    method CreatePosition(owner: nat, bump: nat) returns (error: Option<ProgramError>)
      requires Valid()
      modifies this`positions, this`derived
      ensures Follows(old(Now()), CreatePositionStep(old(Now()), owner, bump), error)
    {
      if !initialized {
        return Some(UninitializedAccount);
      }
      if (owner, bump) in derived {
        return Some(AccountInUse);
      }
      derived := derived + {(owner, bump)};
      positions := positions + [Account(owner, 0)];
      return None;
    }
  }
}
