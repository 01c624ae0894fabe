/** What every run of the pool keeps: solvency, conservation of liquidity tokens, the value of a share,
    and an exact account of the tokens no one can withdraw. */
module PoolRuns {
  import opened ScalarOps
  import opened Amm
  import opened TokenLedger
  import opened PoolProgram

  /** Pool instructions, and whatever else happens to the two tokens meanwhile. */
  datatype Action =
    | SwapIx(payer: nat, aToB: bool, from: nat, to: nat, amountIn: u64, minOut: u64)
    | AddIx(payer: nat, fromA: nat, fromB: nat, position: nat, amountA: u64, amountB: u64)
    | RemoveIx(payer: nat, toA: nat, toB: nat, position: nat, burn: u64)
    | CreatePositionIx(owner: nat, bump: nat)
    | TokenTransfer(isA: bool, signer: nat, from: nat, to: nat, amount: u64)
    | TokenMint(isA: bool, to: nat, amount: u64)
    | TokenBurn(isA: bool, signer: nat, account: nat, amount: u64)
    | OpenAccount(isA: bool, owner: nat)

  /** The pool's address signs only through the pool. */
  predicate Admissible(x: Action) {
    match x
    case SwapIx(payer, _, _, _, _, _) => payer != POOL_PDA
    case AddIx(payer, _, _, _, _, _) => payer != POOL_PDA
    case TokenTransfer(_, signer, _, _, _) => signer != POOL_PDA
    case TokenBurn(_, signer, _, _) => signer != POOL_PDA
    case _ => true
  }

  function Tokens(w: World, isA: bool): seq<Account> {
    if isA then w.a else w.b
  }

  function WithTokens(w: World, isA: bool, l: seq<Account>): World {
    if isA then w.(a := l) else w.(b := l)
  }

  function Reserve(w: World, isA: bool): u64 {
    if isA then w.pool.ra else w.pool.rb
  }

  /** What an action does; token actions that are rejected do nothing. */
  function Execute(w: World, x: Action): Outcome {
    match x
    case SwapIx(payer, aToB, from, to, amountIn, minOut) => SwapStep(w, payer, aToB, from, to, amountIn, minOut)
    case AddIx(payer, fromA, fromB, position, amountA, amountB) => AddStep(w, payer, fromA, fromB, position, amountA, amountB)
    case RemoveIx(payer, toA, toB, position, burn) => RemoveStep(w, payer, toA, toB, position, burn)
    case CreatePositionIx(owner, bump) => CreatePositionStep(w, owner, bump)
    case TokenTransfer(isA, signer, from, to, amount) =>
      var l := TransferOn(Tokens(w, isA), from, to, signer, amount);
      if l.None? then Rejected(TokenProgramError) else Done(WithTokens(w, isA, l.value))
    case TokenMint(isA, to, amount) =>
      var l := Tokens(w, isA);
      if to >= |l| then Rejected(TokenProgramError)
      else Done(WithTokens(w, isA, SetBalance(l, to, Wrap(l[to].balance + amount))))
    case TokenBurn(isA, signer, account, amount) =>
      var l := Tokens(w, isA);
      if account >= |l| || l[account].owner != signer then Rejected(TokenProgramError)
      else Done(WithTokens(w, isA, SetBalance(l, account, l[account].balance - Covered(l, account, amount))))
    case OpenAccount(isA, owner) => Done(WithTokens(w, isA, Tokens(w, isA) + [Account(owner, 0)]))
  }

  function After(w: World, x: Action): (w': World)
    ensures VaultsOwned(w) ==> VaultsOwned(w')
  {
    match Execute(w, x)
    case Done(w') => w'
    case Rejected(_) => w
  }

  /** At most (2^64 - 1) / 1000 of each token. */
  predicate Capped(w: World) {
    1000 * Total(w.a) < U64 && 1000 * Total(w.b) < U64
  }

  /** What an accepted instruction owes its user, in token A or B, and to which account. */
  function Owed(w: World, x: Action, isA: bool): u64
    requires Execute(w, x).Done?
  {
    match x
    case SwapIx(_, aToB, from, _, amountIn, minOut) =>
      if isA == aToB then 0 else SwapOf(w, aToB, Covered(Tokens(w, aToB), from, amountIn), minOut).finalOut
    case RemoveIx(_, _, _, position, burn) =>
      var o := Remove(w.pool, burn, w.lp[position].balance);
      if isA then o.outA else o.outB
    case _ => 0
  }

  function Payee(x: Action, isA: bool): nat
    requires x.SwapIx? || x.RemoveIx?
  {
    if x.SwapIx? then x.to else if isA then x.toA else x.toB
  }

  /** What a vault owes itself, when its own account is named for a payout. */
  function SelfPaid(w: World, x: Action, isA: bool): nat
    requires Execute(w, x).Done?
  {
    if (x.SwapIx? || x.RemoveIx?) && Payee(x, isA) == VAULT then Owed(w, x, isA) else 0
  }

  /** Tokens an action creates: by a mint, or by a transfer from an account to itself. */
  function Issued(w: World, x: Action, isA: bool): nat {
    if Execute(w, x).Rejected? then 0
    else
      match x
      case TokenTransfer(token, _, from, to, amount) =>
        if isA == token && from == to then Covered(Tokens(w, token), from, amount) else 0
      case TokenMint(token, _, amount) => if isA == token then amount else 0
      case _ => SelfPaid(w, x, isA)
  }

  /** Tokens an action destroys. */
  function Burned(w: World, x: Action, isA: bool): nat {
    if x.TokenBurn? && Execute(w, x).Done? && isA == x.isA then Covered(Tokens(w, isA), x.account, x.amount) else 0
  }

  /** What an action creates keeps each supply below the cap. */
  predicate SupplyFits(w: World, x: Action) {
    1000 * (Total(w.a) + Issued(w, x, true)) < U64 && 1000 * (Total(w.b) + Issued(w, x, false)) < U64
  }

  /** Liquidity tokens minted by an action, were it to succeed. */
  function Minted(w: World, x: Action): nat {
    if x.AddIx? && OwnsPosition(w.lp, x.position, x.payer) then
      var depositA := ReceiptTransferOn(w.a, x.fromA, VAULT, x.payer, x.amountA);
      var depositB := ReceiptTransferOn(w.b, x.fromB, VAULT, x.payer, x.amountB);
      if depositA.None? || depositB.None? then 0
      else Add(w.pool, depositA.value.1, depositB.value.1, w.lp[x.position].balance).minted
    else 0
  }

  // ---- when an action happens ----

  /** The account exists and belongs to the signer. */
  predicate Holds(l: seq<Account>, account: nat, signer: nat) {
    account < |l| && l[account].owner == signer
  }

  /** Who may do what, as conditions on the accounts; an amount never matters. */
  predicate Allowed(w: World, x: Action) {
    match x
    case SwapIx(payer, aToB, from, to, _, _) =>
      && w.initialized
      && Holds(Tokens(w, aToB), from, payer) && VAULT < |Tokens(w, aToB)|
      && Holds(Tokens(w, !aToB), VAULT, POOL_PDA) && to < |Tokens(w, !aToB)|
    case AddIx(payer, fromA, fromB, position, _, _) =>
      && w.initialized && Holds(w.lp, position, payer)
      && Holds(w.a, fromA, payer) && VAULT < |w.a| && Holds(w.b, fromB, payer) && VAULT < |w.b|
    case RemoveIx(payer, toA, toB, position, _) =>
      && w.initialized && Holds(w.lp, position, payer)
      && Holds(w.a, VAULT, POOL_PDA) && toA < |w.a| && Holds(w.b, VAULT, POOL_PDA) && toB < |w.b|
    case CreatePositionIx(owner, bump) => w.initialized && (owner, bump) !in w.derived
    case TokenTransfer(isA, signer, from, to, _) => Holds(Tokens(w, isA), from, signer) && to < |Tokens(w, isA)|
    case TokenMint(isA, to, _) => to < |Tokens(w, isA)|
    case TokenBurn(isA, signer, account, _) => Holds(Tokens(w, isA), account, signer)
    case OpenAccount(_, _) => true
  }

  /** An action happens exactly when it is allowed. */
  lemma HappensIffAllowed(w: World, x: Action)
    ensures Execute(w, x).Done? <==> Allowed(w, x)
  {
    hide SwapStep, AddStep, RemoveStep, SetBalance, TransferGraph, Wrap;
    match x
    case SwapIx(payer, aToB, from, to, amountIn, minOut) => SwapAccepted(w, payer, aToB, from, to, amountIn, minOut);
    case AddIx(payer, fromA, fromB, position, amountA, amountB) =>
      AddAccepted(w, payer, fromA, fromB, position, amountA, amountB);
    case RemoveIx(payer, toA, toB, position, burn) => RemoveAccepted(w, payer, toA, toB, position, burn);
    case _ =>
  }

  // ---- solvency ----

  /** Reserves are backed by the vaults, and the positions add up to the supply. */
  predicate Solvent(w: World) {
    && VaultsOwned(w)
    && w.pool.ra <= w.a[VAULT].balance && w.pool.rb <= w.b[VAULT].balance
    && Total(w.lp) == w.pool.ts
  }

  lemma CreatedIsSolvent(a: seq<Account>, b: seq<Account>)
    ensures Solvent(Created(a, b)) && Gap(Created(a, b), true) == 0 && Gap(Created(a, b), false) == 0
  {
  }

  /** Tokens in a vault that no reserve accounts for. */
  function Gap(w: World, isA: bool): int
    requires VaultsOwned(w)
  {
    Tokens(w, isA)[VAULT].balance - Reserve(w, isA)
  }

  /** Tokens an action leaves in a vault without crediting a reserve: the deposit of a swap that fails
      its slippage check, and whatever is sent or minted to the vault directly. A payout to the vault
      itself counts twice: the reserve is debited and the vault is credited. */
  function Stranded(w: World, x: Action, isA: bool): nat {
    if Execute(w, x).Rejected? then 0
    else
      match x
      case SwapIx(payer, aToB, from, _, amountIn, minOut) =>
        var receipt := Covered(Tokens(w, aToB), from, amountIn);
        if isA != aToB then 2 * SelfPaid(w, x, isA)
        else if AmountOut(Reserve(w, aToB), Reserve(w, !aToB), receipt) < minOut then receipt
        else 0
      case RemoveIx(_, _, _, _, _) => 2 * SelfPaid(w, x, isA)
      case TokenTransfer(token, _, from, to, amount) =>
        if isA == token && to == VAULT then Covered(Tokens(w, token), from, amount) else 0
      case TokenMint(token, to, amount) => if isA == token && to == VAULT then amount else 0
      case _ => 0
  }

  /** A ledger whose vault paid `amount`, possibly to itself. */
  lemma PaidOut(l: seq<Account>, l': seq<Account>, to: nat, amount: nat)
    requires |l| > 0 && to < |l| && Transferred(l, l', VAULT, to, amount)
    requires to == VAULT ==> Total(l) + amount < U64
    ensures |l'| == |l| && l'[to].balance == l[to].balance + amount
    ensures l'[VAULT].balance == if to == VAULT then l[VAULT].balance + amount else l[VAULT].balance - amount
    ensures Total(l') == Total(l) + if to == VAULT then amount else 0
  {
    hide Total, Wrap;
    if to == VAULT {
      SelfCredit(l, to, amount);
    }
  }

  lemma SelfCredit(l: seq<Account>, i: nat, amount: nat)
    requires i < |l| && Total(l) + amount < U64
    ensures Wrap(l[i].balance + amount) == l[i].balance + amount
    ensures Total(SetBalance(l, i, Wrap(l[i].balance + amount))) == Total(l) + amount
  {
    hide Total, Wrap;
    TotalUpdate(l, i, 0);
    WrapSmall(l[i].balance + amount);
    TotalUpdate(l, i, l[i].balance + amount);
  }

  /** Both ledgers of a swap, and the sums and products the swap graph meets. */
  lemma SwapEffect(w: World, x: Action)
    requires Solvent(w) && Capped(w) && x.SwapIx? && Admissible(x) && Execute(w, x).Done?
    ensures var w' := Execute(w, x).world;
            && MayTransfer(Tokens(w, x.aToB), x.from, VAULT, x.payer)
            && MayTransfer(Tokens(w, !x.aToB), VAULT, x.to, POOL_PDA)
            && var receipt := Covered(Tokens(w, x.aToB), x.from, x.amountIn);
               var o := SwapOf(w, x.aToB, receipt, x.minOut);
            && SwapFits(Reserve(w, x.aToB), receipt)
            && o.finalOut <= Tokens(w, !x.aToB)[VAULT].balance
            && Moved(Tokens(w, x.aToB), Tokens(w', x.aToB), x.from, VAULT, receipt)
            && Transferred(Tokens(w, !x.aToB), Tokens(w', !x.aToB), VAULT, x.to, o.finalOut)
            && w'.pool == SwapPool(w.pool, x.aToB, receipt, x.minOut)
            && w'.lp == w.lp && w'.initialized == w.initialized && w'.derived == w.derived
  {
    hide Total, Moved, Swap, Wrap;
    var l, out := Tokens(w, x.aToB), Tokens(w, !x.aToB);
    ReceiptTransferMoves(l, x.from, VAULT, x.payer, x.amountIn);
    TwoWithinTotal(l, x.from, VAULT);
    var receipt := Covered(l, x.from, x.amountIn);
    var o := SwapOf(w, x.aToB, receipt, x.minOut);
    PriceBound(Reserve(w, x.aToB), Reserve(w, !x.aToB), receipt, x.minOut);
    TransferMoves(out, VAULT, x.to, POOL_PDA, o.finalOut);
  }

  /** The gap and the supply of one token. */
  predicate Accounted(w: World, x: Action, isA: bool)
    requires VaultsOwned(w)
  {
    && Gap(After(w, x), isA) == Gap(w, isA) + Stranded(w, x, isA)
    && Total(Tokens(After(w, x), isA)) == Total(Tokens(w, isA)) + Issued(w, x, isA) - Burned(w, x, isA)
  }

  lemma SwapAccounted(w: World, x: Action, isA: bool)
    requires Solvent(w) && Capped(w) && x.SwapIx? && Admissible(x) && SupplyFits(w, x) && Execute(w, x).Done?
    ensures Accounted(w, x, isA)
  {
    hide Total, Execute, AmountOut, Wrap;
    SwapEffect(w, x);
    var receipt := Covered(Tokens(w, x.aToB), x.from, x.amountIn);
    PriceBound(Reserve(w, x.aToB), Reserve(w, !x.aToB), receipt, x.minOut);
    PaidOut(Tokens(w, !x.aToB), Tokens(After(w, x), !x.aToB), x.to, Owed(w, x, !x.aToB));
  }

  lemma AddEffect(w: World, x: Action)
    requires Solvent(w) && Capped(w) && x.AddIx? && Admissible(x) && Execute(w, x).Done?
    ensures var w' := Execute(w, x).world;
            && MayTransfer(w.a, x.fromA, VAULT, x.payer) && MayTransfer(w.b, x.fromB, VAULT, x.payer)
            && OwnsPosition(w.lp, x.position, x.payer)
            && var receiptA, receiptB := Covered(w.a, x.fromA, x.amountA), Covered(w.b, x.fromB, x.amountB);
               var o := Add(w.pool, receiptA, receiptB, w.lp[x.position].balance);
            && w.pool.ra + receiptA < U64 && w.pool.rb + receiptB < U64
            && Moved(w.a, w'.a, x.fromA, VAULT, receiptA) && Moved(w.b, w'.b, x.fromB, VAULT, receiptB)
            && w'.pool == o.pool && w'.lp == SetBalance(w.lp, x.position, o.userLp) && Minted(w, x) == o.minted
  {
    hide Total, Moved, Add;
    ReceiptTransferMoves(w.a, x.fromA, VAULT, x.payer, x.amountA);
    ReceiptTransferMoves(w.b, x.fromB, VAULT, x.payer, x.amountB);
    TwoWithinTotal(w.a, x.fromA, VAULT);
    TwoWithinTotal(w.b, x.fromB, VAULT);
  }

  lemma AddReserves(p: Pool, x: u64, y: u64, userLp: u64)
    requires p.ra + x < U64 && p.rb + y < U64
    ensures var o := Add(p, x, y, userLp);
            && o.pool.ra == p.ra + x && o.pool.rb == p.rb + y
            && o.pool.ts == Wrap(p.ts + o.minted) && o.userLp == Wrap(userLp + o.minted)
  {
    hide Wrap, Div;
    WrapSmall(p.ra + x);
    WrapSmall(p.rb + y);
  }

  lemma AddAccounted(w: World, x: Action, isA: bool)
    requires Solvent(w) && Capped(w) && x.AddIx? && Admissible(x) && Execute(w, x).Done?
    ensures Accounted(w, x, isA)
  {
    hide Total, Execute, Add;
    AddEffect(w, x);
    AddReserves(w.pool, Covered(w.a, x.fromA, x.amountA), Covered(w.b, x.fromB, x.amountB), w.lp[x.position].balance);
  }

  lemma RemoveEffect(w: World, x: Action)
    requires Solvent(w) && Capped(w) && x.RemoveIx? && Execute(w, x).Done?
    ensures var w' := Execute(w, x).world;
            && MayTransfer(w.a, VAULT, x.toA, POOL_PDA) && MayTransfer(w.b, VAULT, x.toB, POOL_PDA)
            && OwnsPosition(w.lp, x.position, x.payer) && w.lp[x.position].balance <= w.pool.ts
            && var o := Remove(w.pool, x.burn, w.lp[x.position].balance);
            && o.outA <= w.a[VAULT].balance && o.outB <= w.b[VAULT].balance
            && Transferred(w.a, w'.a, VAULT, x.toA, o.outA) && Transferred(w.b, w'.b, VAULT, x.toB, o.outB)
            && w'.pool == o.pool && w'.lp == SetBalance(w.lp, x.position, o.userLp)
  {
    hide Total, Moved, Remove, Wrap;
    TotalUpdate(w.lp, x.position, 0);
    var o := Remove(w.pool, x.burn, w.lp[x.position].balance);
    WithdrawalBound(w.pool, x.burn, w.lp[x.position].balance);
    TransferMoves(w.a, VAULT, x.toA, POOL_PDA, o.outA);
    TransferMoves(w.b, VAULT, x.toB, POOL_PDA, o.outB);
  }

  lemma RemoveAccounted(w: World, x: Action, isA: bool)
    requires Solvent(w) && Capped(w) && x.RemoveIx? && SupplyFits(w, x) && Execute(w, x).Done?
    ensures Accounted(w, x, isA)
  {
    hide Total, Execute, Remove, Wrap, Transferred;
    RemoveEffect(w, x);
    WithdrawalBound(w.pool, x.burn, w.lp[x.position].balance);
    PaidOut(Tokens(w, isA), Tokens(After(w, x), isA), Payee(x, isA), Owed(w, x, isA));
  }

  predicate IsTokenAction(x: Action) {
    x.TokenTransfer? || x.TokenMint? || x.TokenBurn? || x.OpenAccount?
  }

  /** One ledger after a token action: its supply, and what its vault gains. */
  lemma LedgerEffect(w: World, x: Action)
    requires Solvent(w) && Capped(w) && IsTokenAction(x) && Admissible(x) && SupplyFits(w, x)
    ensures var l, l' := Tokens(w, x.isA), Tokens(After(w, x), x.isA);
            && Total(l') == Total(l) + Issued(w, x, x.isA) - Burned(w, x, x.isA)
            && |l'| > 0 && l'[VAULT].balance == l[VAULT].balance + Stranded(w, x, x.isA)
  {
    hide Total, Wrap, TransferOn;
    if Execute(w, x).Done? {
      var l := Tokens(w, x.isA);
      match x
      case TokenTransfer(_, signer, from, to, amount) => TransferEffect(l, from, to, signer, amount);
      case TokenMint(_, to, amount) => SelfCredit(l, to, amount);
      case TokenBurn(_, _, account, amount) => TotalUpdate(l, account, l[account].balance - Covered(l, account, amount));
      case OpenAccount(_, owner) => TotalAppend(l, Account(owner, 0));
    }
  }

  /** A transfer not signed by the pool's address credits the vault with what it sends there. */
  lemma TransferEffect(l: seq<Account>, from: nat, to: nat, signer: nat, amount: u64)
    requires |l| > 0 && l[VAULT].owner == POOL_PDA && signer != POOL_PDA
    requires TransferOn(l, from, to, signer, amount).Some?
    requires Total(l) + (if from == to then Covered(l, from, amount) else 0) < U64
    ensures var l' := TransferOn(l, from, to, signer, amount).value;
            && Total(l') == Total(l) + (if from == to then Covered(l, from, amount) else 0)
            && l'[VAULT].balance == l[VAULT].balance + if to == VAULT then Covered(l, from, amount) else 0
  {
    hide Total, Wrap, TransferOn;
    OwnerSigned(l, from, to, signer, amount);
    TransferMoves(l, from, to, signer, amount);
    if from == to {
      SelfCredit(l, to, Covered(l, from, amount));
    }
  }

  lemma OwnerSigned(l: seq<Account>, from: nat, to: nat, signer: nat, amount: u64)
    requires TransferOn(l, from, to, signer, amount).Some?
    ensures MayTransfer(l, from, to, signer)
  {
  }

  lemma OtherLedgerUntouched(w: World, x: Action)
    requires VaultsOwned(w) && IsTokenAction(x)
    ensures Tokens(After(w, x), !x.isA) == Tokens(w, !x.isA)
    ensures Stranded(w, x, !x.isA) == Issued(w, x, !x.isA) == Burned(w, x, !x.isA) == 0
    ensures After(w, x).pool == w.pool && After(w, x).lp == w.lp
  {
    hide TransferOn, SetBalance, Wrap, Covered;
  }

  lemma TokenAccounted(w: World, x: Action, isA: bool)
    requires Solvent(w) && Capped(w) && IsTokenAction(x) && Admissible(x) && SupplyFits(w, x)
    ensures Accounted(w, x, isA)
  {
    hide Total, After, Stranded, Issued, Burned;
    LedgerEffect(w, x);
    OtherLedgerUntouched(w, x);
  }

  /** The gap of each vault grows by exactly what was stranded, and each supply by exactly what was
      issued less what was burned. */
  lemma EveryStepAccounted(w: World, x: Action, isA: bool)
    requires Solvent(w) && Capped(w) && Admissible(x) && SupplyFits(w, x)
    ensures Gap(After(w, x), isA) == Gap(w, isA) + Stranded(w, x, isA)
    ensures Total(Tokens(After(w, x), isA)) == Total(Tokens(w, isA)) + Issued(w, x, isA) - Burned(w, x, isA)
  {
    hide Total, Swap, Add, Remove, Execute, Issued, Burned, Stranded;
    if IsTokenAction(x) {
      TokenAccounted(w, x, isA);
    } else if Execute(w, x).Rejected? || x.CreatePositionIx? {
      NothingToAccount(w, x, isA);
    } else {
      match x
      case SwapIx(_, _, _, _, _, _) => SwapAccounted(w, x, isA);
      case AddIx(_, _, _, _, _, _) => AddAccounted(w, x, isA);
      case RemoveIx(_, _, _, _, _) => RemoveAccounted(w, x, isA);
    }
  }

  lemma NothingToAccount(w: World, x: Action, isA: bool)
    requires VaultsOwned(w) && (Execute(w, x).Rejected? || x.CreatePositionIx?)
    ensures Accounted(w, x, isA)
  {
    hide Total, SwapStep, AddStep, RemoveStep, TransferOn;
  }

  lemma StaysCapped(w: World, x: Action)
    requires Solvent(w) && Capped(w) && Admissible(x) && SupplyFits(w, x)
    ensures Capped(After(w, x))
  {
    hide Total, After, Issued, Burned, Stranded;
    EveryStepAccounted(w, x, true);
    EveryStepAccounted(w, x, false);
  }

  // ---- liquidity tokens ----

  /** A deposit's minted tokens do not overflow the supply. */
  predicate MintFits(w: World, x: Action) {
    w.pool.ts + Minted(w, x) < U64
  }

  /** The positions add up to the supply. */
  predicate PositionsAddUp(w: World) {
    Total(w.lp) == w.pool.ts
  }

  /** What an accepted pool instruction does to the pool and the positions, whatever the ledgers hold. */
  lemma PoolChange(w: World, x: Action)
    requires Execute(w, x).Done?
    ensures var w' := Execute(w, x).world;
            match x
            case SwapIx(_, aToB, from, _, amountIn, minOut) =>
              && from < |Tokens(w, aToB)|
              && w'.pool == SwapPool(w.pool, aToB, Covered(Tokens(w, aToB), from, amountIn), minOut) && w'.lp == w.lp
            case AddIx(payer, fromA, fromB, position, amountA, amountB) =>
              && fromA < |w.a| && fromB < |w.b| && OwnsPosition(w.lp, position, payer)
              && var o := Add(w.pool, Covered(w.a, fromA, amountA), Covered(w.b, fromB, amountB), w.lp[position].balance);
                 w'.pool == o.pool && w'.lp == SetBalance(w.lp, position, o.userLp) && Minted(w, x) == o.minted
            case RemoveIx(payer, _, _, position, burn) =>
              && OwnsPosition(w.lp, position, payer)
              && var o := Remove(w.pool, burn, w.lp[position].balance);
                 w'.pool == o.pool && w'.lp == SetBalance(w.lp, position, o.userLp)
            case CreatePositionIx(owner, _) => w'.pool == w.pool && w'.lp == w.lp + [Account(owner, 0)]
            case _ => w'.pool == w.pool && w'.lp == w.lp
  {
    hide Total, Swap, Add, Remove, Wrap, SetBalance;
  }

  /** Every instruction that does not overflow the supply keeps the positions adding up to it. */
  lemma PositionsStep(w: World, x: Action)
    requires PositionsAddUp(w) && MintFits(w, x)
    ensures PositionsAddUp(After(w, x))
  {
    hide Total, Swap, Add, Remove, Wrap, Execute;
    if Execute(w, x).Done? {
      PoolChange(w, x);
      match x
      case AddIx(_, fromA, fromB, position, amountA, amountB) =>
        var lp, minted := w.lp[position].balance, Minted(w, x);
        MintedSupply(w.pool, Covered(w.a, fromA, amountA), Covered(w.b, fromB, amountB), lp);
        TotalUpdate(w.lp, position, 0);
        WrapSmall(w.pool.ts + minted);
        WrapSmall(lp + minted);
        TotalUpdate(w.lp, position, lp + minted);
      case RemoveIx(_, _, _, position, burn) =>
        var lp := w.lp[position].balance;
        TotalUpdate(w.lp, position, 0);
        RemainingSupply(w.pool, burn, lp);
        TotalUpdate(w.lp, position, Remove(w.pool, burn, lp).userLp);
      case CreatePositionIx(owner, _) => TotalAppend(w.lp, Account(owner, 0));
      case _ =>
    }
  }

  lemma MintedSupply(p: Pool, x: u64, y: u64, userLp: u64)
    ensures var o := Add(p, x, y, userLp); o.pool.ts == Wrap(p.ts + o.minted) && o.userLp == Wrap(userLp + o.minted)
  {
    hide Wrap, Div;
  }

  /** The supply counts the positions after a deposit exactly when the mint fits both the supply and
      the position, or neither. */
  lemma PositionsKeptIff(w: World, x: Action)
    requires PositionsAddUp(w) && x.AddIx? && Execute(w, x).Done?
    ensures OwnsPosition(w.lp, x.position, x.payer)
    ensures PositionsAddUp(After(w, x))
       <==> (w.pool.ts + Minted(w, x) < U64 || w.lp[x.position].balance + Minted(w, x) >= U64)
  {
    hide Total, Add, Execute, Wrap;
    PoolChange(w, x);
    var lp, minted := w.lp[x.position].balance, Minted(w, x);
    MintedSupply(w.pool, Covered(w.a, x.fromA, x.amountA), Covered(w.b, x.fromB, x.amountB), lp);
    TotalUpdate(w.lp, x.position, Wrap(lp + minted));
    WrapOnce(w.pool.ts + minted);
    WrapOnce(lp + minted);
  }

  /** Solvency is kept by every step. */
  lemma SolventStep(w: World, x: Action)
    requires Solvent(w) && Capped(w) && Admissible(x) && SupplyFits(w, x) && MintFits(w, x)
    ensures Solvent(After(w, x)) && Capped(After(w, x))
  {
    hide Total, After, Capped, Stranded;
    EveryStepAccounted(w, x, true);
    EveryStepAccounted(w, x, false);
    StaysCapped(w, x);
    PositionsStep(w, x);
  }

  // ---- payouts ----

  /** Every payout is covered: the vault holds it, and it arrives in full. */
  lemma PayoutsCovered(w: World, x: Action, isA: bool)
    requires Solvent(w) && Capped(w) && Admissible(x) && Execute(w, x).Done?
    requires x.RemoveIx? || (x.SwapIx? && isA != x.aToB)
    requires Payee(x, isA) == VAULT ==> SupplyFits(w, x)
    ensures Owed(w, x, isA) <= Tokens(w, isA)[VAULT].balance
    ensures var l, l', to := Tokens(w, isA), Tokens(After(w, x), isA), Payee(x, isA);
            && to < |l| && |l'| == |l|
            && l'[to].balance == l[to].balance + Owed(w, x, isA)
            && (to != VAULT ==> l'[VAULT].balance == l[VAULT].balance - Owed(w, x, isA))
  {
    hide Total, Swap, Remove, Execute, Wrap, Transferred;
    if x.SwapIx? {
      SwapEffect(w, x);
    } else {
      RemoveEffect(w, x);
    }
    PaidOut(Tokens(w, isA), Tokens(After(w, x), isA), Payee(x, isA), Owed(w, x, isA));
  }

  /** A swap that fails its slippage check changes nothing exactly when nothing was deposited: the
      deposit itself stays in the vault. */
  lemma SlippageFailureIsNoOpIff(w: World, x: Action)
    requires Solvent(w) && Capped(w) && x.SwapIx? && Admissible(x) && Execute(w, x).Done?
    requires x.from < |Tokens(w, x.aToB)|
    requires AmountOut(Reserve(w, x.aToB), Reserve(w, !x.aToB), Covered(Tokens(w, x.aToB), x.from, x.amountIn)) < x.minOut
    ensures After(w, x) == w <==> Covered(Tokens(w, x.aToB), x.from, x.amountIn) == 0
  {
    hide Total, Execute, AmountOut, Wrap;
    SwapEffect(w, x);
    WrapSmall(w.pool.ra);
    WrapSmall(w.pool.rb);
    var w' := Execute(w, x).world;
    if Covered(Tokens(w, x.aToB), x.from, x.amountIn) == 0 {
      NothingTransferred(Tokens(w, x.aToB), Tokens(w', x.aToB), x.from, VAULT);
      NothingTransferred(Tokens(w, !x.aToB), Tokens(w', !x.aToB), VAULT, x.to);
    }
  }

  lemma NothingTransferred(l: seq<Account>, l': seq<Account>, from: nat, to: nat)
    requires from < |l| && to < |l| && Transferred(l, l', from, to, 0)
    ensures l' == l
  {
    hide Total, Wrap;
    WrapSmall(l[to].balance);
    if from != to {
      forall k: nat | k < |l|
        ensures l'[k] == l[k]
      {
        assert l'[k].owner == l[k].owner;
      }
    }
  }

  // ---- the value of a share ----

  /** An accepted swap's two sums, or an accepted deposit's new reserves, stay below 2^64. */
  predicate SumsFit(w: World, x: Action) {
    Execute(w, x).Done? ==>
      match x
      case SwapIx(_, aToB, from, _, amountIn, _) => SwapFits(Reserve(w, aToB), Covered(Tokens(w, aToB), from, amountIn))
      case AddIx(_, fromA, fromB, _, amountA, amountB) =>
        w.pool.ra + Covered(w.a, fromA, amountA) < U64 && w.pool.rb + Covered(w.b, fromB, amountB) < U64
      case _ => true
  }

  /** No step whose sums fit lowers the value of a share while liquidity tokens are outstanding. */
  lemma ShareStep(w: World, x: Action)
    requires PositionsAddUp(w) && w.pool.ts >= 1 && SumsFit(w, x) && MintFits(w, x)
    ensures ShareKept(w.pool, After(w, x).pool)
  {
    hide Total, Swap, Add, Remove, ShareKept, Execute, SwapFits;
    SharesMultiply(w.pool, w.pool);
    if Execute(w, x).Done? {
      PoolChange(w, x);
      match x
      case SwapIx(_, aToB, from, _, amountIn, minOut) =>
        SwapKeepsShares(w.pool, aToB, Covered(Tokens(w, aToB), from, amountIn), minOut);
      case AddIx(_, fromA, fromB, position, amountA, amountB) =>
        AddKeepsShares(w.pool, Covered(w.a, fromA, amountA), Covered(w.b, fromB, amountB), w.lp[position].balance);
      case RemoveIx(_, _, _, position, burn) =>
        TotalUpdate(w.lp, position, 0);
        RemoveKeepsShares(w.pool, burn, w.lp[position].balance);
      case _ =>
    }
  }

  // ---- whole runs ----

  /** A run from w that keeps the supplies below the cap and whose liquidity mints do not overflow. */
  predicate Fits(w: World, run: seq<Action>)
    decreases |run|
  {
    run == [] || (
      && Admissible(run[0]) && SupplyFits(w, run[0]) && MintFits(w, run[0])
      && Fits(After(w, run[0]), run[1..]))
  }

  function AfterRun(w: World, run: seq<Action>): (w': World)
    ensures VaultsOwned(w) ==> VaultsOwned(w')
    decreases |run|
  {
    if run == [] then w else AfterRun(After(w, run[0]), run[1..])
  }

  /** Every reachable state is solvent. */
  lemma {:induction false} RunsStaySolvent(w: World, run: seq<Action>)
    requires Solvent(w) && Capped(w) && Fits(w, run)
    ensures Solvent(AfterRun(w, run)) && Capped(AfterRun(w, run))
    decreases |run|
  {
    hide After, Total, Capped;
    if run != [] {
      SolventStep(w, run[0]);
      RunsStaySolvent(After(w, run[0]), run[1..]);
    }
  }

  lemma {:induction false} StaysInitialized(w: World, run: seq<Action>)
    requires w.initialized
    ensures AfterRun(w, run).initialized
    decreases |run|
  {
    if run != [] {
      StepStaysInitialized(w, run[0]);
      StaysInitialized(After(w, run[0]), run[1..]);
    }
  }

  lemma StepStaysInitialized(w: World, x: Action)
    requires w.initialized
    ensures After(w, x).initialized
  {
    hide TransferOn, ReceiptTransferOn, SetBalance, Swap, Add, Remove, Wrap;
  }

  /** No run can lock liquidity in: whatever has happened since a pool was created, whoever holds a
      position can withdraw any part of it to any existing accounts. */
  lemma WithdrawalNeverBlocked(w: World, run: seq<Action>, payer: nat, toA: nat, toB: nat, position: nat, burn: u64)
    requires VaultsOwned(w) && w.initialized
    ensures var now := AfterRun(w, run);
            Execute(now, RemoveIx(payer, toA, toB, position, burn)).Done? <==>
            Holds(now.lp, position, payer) && toA < |now.a| && toB < |now.b|
  {
    hide Execute, After;
    StaysInitialized(w, run);
    HappensIffAllowed(AfterRun(w, run), RemoveIx(payer, toA, toB, position, burn));
  }

  /** In every reachable state, whatever instruction comes next, its payouts are covered. */
  lemma RunsPayInFull(w: World, run: seq<Action>, x: Action, isA: bool)
    requires Solvent(w) && Capped(w) && Fits(w, run) && Admissible(x)
    requires Execute(AfterRun(w, run), x).Done? && (x.RemoveIx? || (x.SwapIx? && isA != x.aToB))
    requires Payee(x, isA) == VAULT ==> SupplyFits(AfterRun(w, run), x)
    ensures var now, next := AfterRun(w, run), After(AfterRun(w, run), x);
            && Payee(x, isA) < |Tokens(now, isA)| == |Tokens(next, isA)|
            && Owed(now, x, isA) <= Tokens(now, isA)[VAULT].balance
            && Tokens(next, isA)[Payee(x, isA)].balance == Tokens(now, isA)[Payee(x, isA)].balance + Owed(now, x, isA)
  {
    hide After, Total, Capped, Owed, Execute;
    RunsStaySolvent(w, run);
    PayoutsCovered(AfterRun(w, run), x, isA);
  }

  /** Before every step of the run liquidity tokens are outstanding, its sums fit, and its mint does not
      overflow the supply. */
  predicate SharesFit(w: World, run: seq<Action>)
    decreases |run|
  {
    run == [] || (w.pool.ts >= 1 && SumsFit(w, run[0]) && MintFits(w, run[0]) && SharesFit(After(w, run[0]), run[1..]))
  }

  /** Over every such run the value of a share never falls, whatever the supplies of the two tokens, the
      backing of the reserves and the accounts the instructions name. */
  lemma {:induction false} ShareNeverFalls(w: World, run: seq<Action>)
    requires PositionsAddUp(w) && SharesFit(w, run)
    ensures ShareKept(w.pool, AfterRun(w, run).pool)
    decreases |run|
  {
    hide After, Total, ShareKept, SumsFit, MintFits;
    if run == [] {
      SharesMultiply(w.pool, w.pool);
    } else {
      var w' := After(w, run[0]);
      ShareStep(w, run[0]);
      PositionsStep(w, run[0]);
      if run[1..] != [] {
        ShareNeverFalls(w', run[1..]);
        ShareKeptTransitive(w.pool, w'.pool, AfterRun(w, run).pool);
      }
    }
  }

  /** Liquidity tokens are outstanding in every state of the run but possibly the last. */
  predicate Outstanding(w: World, run: seq<Action>)
    decreases |run|
  {
    run == [] || (w.pool.ts >= 1 && Outstanding(After(w, run[0]), run[1..]))
  }

  /** In a solvent state under the supply cap, the sums of every step fit. */
  lemma CappedSumsFit(w: World, x: Action)
    requires Solvent(w) && Capped(w) && Admissible(x)
    ensures SumsFit(w, x)
  {
    hide Total, Swap, Add, Remove;
    if Execute(w, x).Done? {
      if x.SwapIx? {
        SwapEffect(w, x);
      } else if x.AddIx? {
        AddEffect(w, x);
      }
    }
  }

  /** So under the supply cap, a share never loses value over any run with liquidity tokens outstanding. */
  lemma CappedShareNeverFalls(w: World, run: seq<Action>)
    requires Solvent(w) && Capped(w) && Fits(w, run) && Outstanding(w, run)
    ensures ShareKept(w.pool, AfterRun(w, run).pool)
  {
    hide Total, ShareKept, Capped, After;
    CappedSharesFit(w, run);
    ShareNeverFalls(w, run);
  }

  lemma {:induction false} CappedSharesFit(w: World, run: seq<Action>)
    requires Solvent(w) && Capped(w) && Fits(w, run) && Outstanding(w, run)
    ensures SharesFit(w, run)
    decreases |run|
  {
    hide After, Total, Capped, SumsFit, MintFits;
    if run != [] {
      CappedSumsFit(w, run[0]);
      SolventStep(w, run[0]);
      CappedSharesFit(After(w, run[0]), run[1..]);
    }
  }

  function IssuedInRun(w: World, run: seq<Action>, isA: bool): int
    decreases |run|
  {
    if run == [] then 0 else Issued(w, run[0], isA) - Burned(w, run[0], isA) + IssuedInRun(After(w, run[0]), run[1..], isA)
  }

  /** Swaps, deposits and withdrawals conserve each token: its supply over all accounts changes only by
      what was issued and burned. */
  lemma {:induction false} SupplyIsIssued(w: World, run: seq<Action>, isA: bool)
    requires Solvent(w) && Capped(w) && Fits(w, run)
    ensures Total(Tokens(AfterRun(w, run), isA)) == Total(Tokens(w, isA)) + IssuedInRun(w, run, isA)
    decreases |run|
  {
    hide After, Total, Capped, Issued, Burned, Stranded;
    if run != [] {
      EveryStepAccounted(w, run[0], isA);
      SolventStep(w, run[0]);
      SupplyIsIssued(After(w, run[0]), run[1..], isA);
    }
  }

  function StrandedInRun(w: World, run: seq<Action>, isA: bool): nat
    decreases |run|
  {
    if run == [] then 0 else Stranded(w, run[0], isA) + StrandedInRun(After(w, run[0]), run[1..], isA)
  }

  /** The tokens a vault holds beyond its reserve are exactly those stranded on the way. */
  lemma {:induction false} GapIsStranded(w: World, run: seq<Action>, isA: bool)
    requires Solvent(w) && Capped(w) && Fits(w, run)
    ensures Gap(AfterRun(w, run), isA) == Gap(w, isA) + StrandedInRun(w, run, isA)
    decreases |run|
  {
    hide After, Total, Capped, Stranded;
    if run != [] {
      EveryStepAccounted(w, run[0], isA);
      SolventStep(w, run[0]);
      GapIsStranded(After(w, run[0]), run[1..], isA);
    }
  }

  /** From its creation on, a pool's vault mirrors its reserve exactly until the first stranded token. */
  lemma MirrorIsExactIff(a: seq<Account>, b: seq<Account>, run: seq<Action>, isA: bool)
    requires Capped(Created(a, b)) && Fits(Created(a, b), run)
    ensures var w := AfterRun(Created(a, b), run);
            && Reserve(w, isA) <= Tokens(w, isA)[VAULT].balance
            && (Reserve(w, isA) == Tokens(w, isA)[VAULT].balance <==> StrandedInRun(Created(a, b), run, isA) == 0)
  {
    hide Capped;
    CreatedIsSolvent(a, b);
    RunsStaySolvent(Created(a, b), run);
    GapIsStranded(Created(a, b), run, isA);
  }
}
