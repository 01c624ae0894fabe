/** The balances of one confidential token, as the pool's cross-program calls see them. */
module TokenLedger {
  import opened Arith
  import opened FheTypes
  import opened ScalarOps
  import opened Amm

  /** A token account, or a liquidity position: who may spend it, and how much. */
  datatype Account = Account(owner: nat, balance: u64)

  function Total(l: seq<Account>): nat {
    if l == [] then 0 else Total(l[..|l| - 1]) + l[|l| - 1].balance
  }

  function SetBalance(l: seq<Account>, i: nat, balance: u64): seq<Account>
    requires i < |l|
  {
    l[i := l[i].(balance := balance)]
  }

  /** `transfer_graph`: new balances of the two sides. */
  function TransferGraph(fromBalance: u64, toBalance: u64, amount: u64): (u64, u64) {
    if fromBalance >= amount then (Wrap(fromBalance - amount), Wrap(toBalance + amount)) else (fromBalance, toBalance)
  }

  /** `transfer_receipt_graph`: the same, with the amount actually moved. */
  function TransferReceiptGraph(fromBalance: u64, toBalance: u64, amount: u64): (u64, u64, u64) {
    var actual := if fromBalance >= amount then amount else 0;
    (Wrap(fromBalance - actual), Wrap(toBalance + actual), actual)
  }

  /** Accounts exist, and the signer owns the source. */
  predicate MayTransfer(l: seq<Account>, from: nat, to: nat, signer: nat) {
    from < |l| && to < |l| && l[from].owner == signer
  }

  /** The ledger after a transfer that moves `amount` if the source covers it, or None if rejected. The
      graph's two outputs are written in order, so on a transfer to itself the second stands. */
  function TransferOn(l: seq<Account>, from: nat, to: nat, signer: nat, amount: u64): (r: Option<seq<Account>>)
    ensures r.Some? ==> |r.value| == |l|
  {
    if !MayTransfer(l, from, to, signer) then None
    else
      var (f, t) := TransferGraph(l[from].balance, l[to].balance, amount);
      Some(SetBalance(SetBalance(l, from, f), to, t))
  }

  function ReceiptTransferOn(l: seq<Account>, from: nat, to: nat, signer: nat, amount: u64): (r: Option<(seq<Account>, u64)>)
    ensures r.Some? ==> |r.value.0| == |l|
  {
    if !MayTransfer(l, from, to, signer) then None
    else
      var (f, t, actual) := TransferReceiptGraph(l[from].balance, l[to].balance, amount);
      Some((SetBalance(SetBalance(l, from, f), to, t), actual))
  }

  class Ledger {
    var accounts: seq<Account>

    constructor (accounts: seq<Account>)
      ensures this.accounts == accounts
    {
      this.accounts := accounts;
    }

    /** Rejected calls change nothing. */
    method Transfer(from: nat, to: nat, signer: nat, amount: u64) returns (ok: bool)
      modifies this
      ensures ok == TransferOn(old(accounts), from, to, signer, amount).Some?
      ensures accounts == if ok then TransferOn(old(accounts), from, to, signer, amount).value else old(accounts)
    {
      ok := MayTransfer(accounts, from, to, signer);
      if ok {
        var (f, t) := TransferGraph(accounts[from].balance, accounts[to].balance, amount);
        accounts := SetBalance(accounts, from, f);
        accounts := SetBalance(accounts, to, t);
      }
    }

    method TransferWithReceipt(from: nat, to: nat, signer: nat, amount: u64) returns (ok: bool, receipt: u64)
      modifies this
      ensures ok == ReceiptTransferOn(old(accounts), from, to, signer, amount).Some?
      ensures ok ==> (accounts, receipt) == ReceiptTransferOn(old(accounts), from, to, signer, amount).value
      ensures !ok ==> accounts == old(accounts)
    {
      receipt := 0;
      ok := MayTransfer(accounts, from, to, signer);
      if ok {
        var (f, t, actual) := TransferReceiptGraph(accounts[from].balance, accounts[to].balance, amount);
        accounts := SetBalance(accounts, from, f);
        accounts := SetBalance(accounts, to, t);
        receipt := actual;
      }
    }
  }

  // ---- conservation ----

  lemma {:induction false} TotalUpdate(l: seq<Account>, i: nat, balance: u64)
    requires i < |l|
    ensures Total(SetBalance(l, i, balance)) == Total(l) - l[i].balance + balance
    ensures l[i].balance <= Total(l)
  {
    var last := |l| - 1;
    if i == last {
      assert SetBalance(l, i, balance)[..last] == l[..last];
    } else {
      assert SetBalance(l, i, balance)[..last] == SetBalance(l[..last], i, balance);
      TotalUpdate(l[..last], i, balance);
    }
  }

  lemma TotalAppend(l: seq<Account>, acct: Account)
    ensures Total(l + [acct]) == Total(l) + acct.balance
  {
    assert (l + [acct])[..|l|] == l;
  }

  /** Two accounts together hold at most the whole supply. */
  lemma TwoWithinTotal(l: seq<Account>, i: nat, j: nat)
    requires i < |l| && j < |l| && i != j
    ensures l[i].balance + l[j].balance <= Total(l)
  {
    TotalUpdate(l, i, 0);
    TotalUpdate(SetBalance(l, i, 0), j, 0);
  }

  /** The ledger l' is l with `amount` moved between two accounts and nothing else changed. */
  predicate Moved(l: seq<Account>, l': seq<Account>, from: nat, to: nat, amount: nat)
    requires from < |l| && to < |l| && from != to
  {
    && |l'| == |l|
    && (forall k: nat :: k < |l| ==> l'[k].owner == l[k].owner)
    && (forall k: nat :: k < |l| && k != from && k != to ==> l'[k] == l[k])
    && l'[from].balance == l[from].balance - amount && l'[to].balance == l[to].balance + amount
    && Total(l') == Total(l)
  }

  lemma TwoUpdatesMove(l: seq<Account>, from: nat, to: nat, amount: nat)
    requires from < |l| && to < |l| && from != to
    requires amount <= l[from].balance && l[to].balance + amount < U64
    ensures Moved(l, SetBalance(SetBalance(l, from, l[from].balance - amount), to, l[to].balance + amount), from, to, amount)
  {
    hide Total;
    TotalUpdate(l, from, l[from].balance - amount);
    TotalUpdate(SetBalance(l, from, l[from].balance - amount), to, l[to].balance + amount);
  }

  /** The amount actually transferred. */
  function Covered(l: seq<Account>, from: nat, amount: u64): u64
    requires from < |l|
  {
    if l[from].balance >= amount then amount else 0
  }

  /** What a transfer of `amount` does: a move between two accounts, or, from an account to itself,
      a credit whose debit is overwritten. */
  predicate Transferred(l: seq<Account>, l': seq<Account>, from: nat, to: nat, amount: nat)
    requires from < |l| && to < |l|
  {
    if from == to then l' == SetBalance(l, to, Wrap(l[to].balance + amount)) else Moved(l, l', from, to, amount)
  }

  /** With the supply below 2^64, a transfer moves exactly the amount, or nothing if the source does not
      cover it. */
  lemma TransferMoves(l: seq<Account>, from: nat, to: nat, signer: nat, amount: u64)
    requires MayTransfer(l, from, to, signer) && Total(l) < U64
    ensures Transferred(l, TransferOn(l, from, to, signer, amount).value, from, to, Covered(l, from, amount))
  {
    hide Wrap, Total, Moved;
    var moved := Covered(l, from, amount);
    WrapSmall(l[from].balance);
    WrapSmall(l[from].balance - moved);
    if from != to {
      TwoWithinTotal(l, from, to);
      WrapSmall(l[to].balance + moved);
      TwoUpdatesMove(l, from, to, moved);
    }
  }

  /** The receipt variant moves the same tokens, and the receipt is what moved. */
  lemma ReceiptTransferMoves(l: seq<Account>, from: nat, to: nat, signer: nat, amount: u64)
    requires MayTransfer(l, from, to, signer) && Total(l) < U64
    ensures var (l', receipt) := ReceiptTransferOn(l, from, to, signer, amount).value;
            && receipt == Covered(l, from, amount)
            && Transferred(l, l', from, to, receipt)
            && TransferOn(l, from, to, signer, amount) == Some(l')
  {
    hide Wrap, Total, Moved;
    TransferMoves(l, from, to, signer, amount);
    WrapSmall(l[from].balance);
    WrapSmall(l[to].balance);
  }

  /** A transfer is accepted exactly when both accounts exist and the signer owns the source. Between two
      accounts it then moves the whole amount if the source holds it, the last unit included, and nothing
      if not; the receipt variant reports which. */
  lemma TransferExact(l: seq<Account>, from: nat, to: nat, signer: nat, amount: u64)
    requires Total(l) < U64
    ensures TransferOn(l, from, to, signer, amount).Some? <==> from < |l| && to < |l| && l[from].owner == signer
    ensures ReceiptTransferOn(l, from, to, signer, amount).Some? <==> from < |l| && to < |l| && l[from].owner == signer
    ensures TransferOn(l, from, to, signer, amount).Some? && from != to ==>
              var l', (l'', receipt) := TransferOn(l, from, to, signer, amount).value, ReceiptTransferOn(l, from, to, signer, amount).value;
              && l'' == l' && receipt == (if l[from].balance >= amount then amount else 0)
              && l'[from].balance == l[from].balance - receipt && l'[to].balance == l[to].balance + receipt
              && l'[from].owner == l[from].owner && l'[to].owner == l[to].owner
              && forall k: nat | k < |l| && k != from && k != to :: l'[k] == l[k]
  {
    hide Total, Wrap;
    if from < |l| && to < |l| && l[from].owner == signer {
      ReceiptTransferMoves(l, from, to, signer, amount);
    }
  }

  /** Tokens are conserved exactly when the two accounts differ or nothing is transferred. */
  lemma TransferConservesIff(l: seq<Account>, from: nat, to: nat, signer: nat, amount: u64)
    requires MayTransfer(l, from, to, signer) && Total(l) < U64
    ensures Total(TransferOn(l, from, to, signer, amount).value) == Total(l)
       <==> (from != to || Covered(l, from, amount) == 0)
  {
    hide Total, Wrap;
    TransferMoves(l, from, to, signer, amount);
    if from == to {
      var moved := Covered(l, from, amount);
      TotalUpdate(l, to, Wrap(l[to].balance + moved));
      WrapOnce(l[to].balance + moved);
    }
  }

  lemma WrapOnce(n: nat)
    requires n < 2 * U64
    ensures Wrap(n) == if n < U64 then n else n - U64
  {
    DivModUnique(n, U64, if n < U64 then 0 else 1, if n < U64 then n else n - U64);
  }
}
