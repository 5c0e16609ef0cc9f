/** The executor: it runs a block against the ledger in place, and undoes either
    a failed attempt or a whole block. */
module Executors {
  import opened Words
  import opened Records
  import opened Ledgers
  import opened TransactionStores
  import opened Execution

  /** The record of what an attempt has added to each balance so far. */
  class LedgerState {
    var deltas: Balances

    constructor ()
      ensures deltas == map[]
    {
      deltas := map[];
    }
  }

  method Deposit(to: Address, amount: uint64, ledger: Ledger, state: LedgerState)
    modifies ledger, state
    ensures ledger.wallets == Credit(old(ledger.wallets), to, amount)
    ensures state.deltas == Credit(old(state.deltas), to, amount)
  {
    var found := ledger.HasWallet(to);
    if !found {
      var _ := ledger.CreateWallet(to);
    }
    var _ := ledger.Deposit(to, amount);
    if to in state.deltas {
      state.deltas := state.deltas[to := Add64(state.deltas[to], amount)];
    } else {
      state.deltas := state.deltas[to := amount];
    }
  }

  method Withdraw(from: Address, amount: uint64, ledger: Ledger, state: LedgerState) returns (ok: bool)
    modifies ledger, state
    ensures ok <==> from in old(ledger.wallets)
    ensures ok ==> ledger.wallets == Debit(old(ledger.wallets), from, amount)
    ensures ok ==> state.deltas == Debit(old(state.deltas), from, amount)
    ensures !ok ==> ledger.wallets == old(ledger.wallets) && state.deltas == old(state.deltas)
  {
    var found := ledger.HasWallet(from);
    if !found {
      return false;
    }
    ok := ledger.Withdraw(from, amount);
    if from in state.deltas {
      state.deltas := state.deltas[from := Sub64(state.deltas[from], amount)];
    } else {
      state.deltas := state.deltas[from := Sub64(0, amount)];
    }
  }

  method UpdateLedger(c: Crypto, t: Transaction, miner: Address, ledger: Ledger, state: LedgerState,
                      blockFee: uint64, id: uint32)
    returns (status: Status)
    modifies ledger, state
    ensures status == UpdateStatus(c, t, old(ledger.wallets), blockFee, id)
    ensures status == SUCCESS ==> ledger.wallets == Apply(t, miner, id == 1, old(ledger.wallets))
    ensures status == SUCCESS ==> state.deltas == Apply(t, miner, id == 1, old(state.deltas))
    ensures status != SUCCESS ==> ledger.wallets == old(ledger.wallets) && state.deltas == old(state.deltas)
  {
    if t.Transfer? && id > WALLET_SIG_FORK_BLOCK && c.addressOf(t.signingKey) != t.from {
      return WALLET_SIGNATURE_MISMATCH;
    }
    if t.Fee? {
      if t.amount == blockFee {
        Deposit(t.to, t.amount, ledger, state);
        return SUCCESS;
      } else {
        return INCORRECT_MINING_FEE;
      }
    }
    if id == 1 {
      Deposit(t.to, t.amount, ledger, state);
    } else {
      var found := ledger.HasWallet(t.from);
      if !found {
        return SENDER_DOES_NOT_EXIST;
      }
      var _, total := ledger.GetWalletValue(t.from);
      if total < Add64(t.amount, t.fee) {
        return BALANCE_TOO_LOW;
      }
      var _ := Withdraw(t.from, t.amount, ledger, state);
      Deposit(t.to, t.amount, ledger, state);
      if t.fee > 0 {
        var _ := Withdraw(t.from, t.fee, ledger, state);
        Deposit(miner, t.fee, ledger, state);
      }
    }
    return SUCCESS;
  }

  /** Takes back a recorded attempt.  The order in which the record is walked
      does not matter. */
  method Rollback(ledger: Ledger, state: LedgerState) returns (ok: bool)
    modifies ledger
    ensures ok <==> state.deltas.Keys <= old(ledger.wallets).Keys
    ensures ok ==> ledger.wallets.Keys == old(ledger.wallets).Keys
    ensures ok ==> forall w: Address :: Balance(ledger.wallets, w)
                     == Sub64(Balance(old(ledger.wallets), w), Balance(state.deltas, w))
  {
    ok := true;
    var todo := state.deltas.Keys;
    while todo != {} && ok
      invariant todo <= state.deltas.Keys
      invariant ledger.wallets.Keys == old(ledger.wallets).Keys
      invariant ok ==> state.deltas.Keys - todo <= ledger.wallets.Keys
      invariant !ok ==> !(state.deltas.Keys <= ledger.wallets.Keys)
      invariant forall w: Address | w in todo || w !in state.deltas ::
                    Balance(ledger.wallets, w) == Balance(old(ledger.wallets), w)
      invariant ok ==> forall w | w in state.deltas && w !in todo ::
                  Balance(ledger.wallets, w) == Sub64(Balance(old(ledger.wallets), w), state.deltas[w])
      decreases todo, ok
    {
      var w :| w in todo;
      ok := ledger.Withdraw(w, state.deltas[w]);
      todo := todo - {w};
    }
  }

  /** A transfer's four updates, each reversed. */
  function Revert(t: Transaction, miner: Address, m: Balances): Balances {
    if t.Fee? then Debit(m, t.to, t.amount)
    else
      var m1 := Credit(Debit(m, t.to, t.amount), t.from, t.amount);
      if t.fee > 0 then Credit(Debit(m1, miner, t.fee), t.from, t.fee) else m1
  }

  lemma RevertMovesBack(t: Transaction, miner: Address, m: Balances, w: Address)
    ensures Balance(Revert(t, miner, m), w) == (Balance(m, w) - Net(t, miner, false, w)) % TWO_64
  {
    if t.Fee? {
      DebitAt(m, t.to, t.amount, w);
    } else {
      var m1 := Credit(Debit(m, t.to, t.amount), t.from, t.amount);
      PayAt(m, t.to, t.from, t.amount, w);
      if t.fee > 0 {
        PayAt(m1, miner, t.from, t.fee, w);
        TwoSteps(Balance(m, w), Balance(m1, w), Balance(Revert(t, miner, m), w),
                 On(w, t.from, t.amount) - On(w, t.to, t.amount), On(w, t.from, t.fee) - On(w, miner, t.fee));
      }
    }
  }

  function RevertLastFirst(txs: seq<Transaction>, miner: Address, m: Balances): Balances {
    if txs == [] then m else Revert(txs[0], miner, RevertLastFirst(txs[1..], miner, m))
  }

  lemma {:induction false} RevertMovesAllBack(txs: seq<Transaction>, miner: Address, m: Balances)
    ensures forall w: Address :: Balance(RevertLastFirst(txs, miner, m), w)
                                 == (Balance(m, w) - NetAll(txs, miner, false, w)) % TWO_64
  {
    if txs == [] {
    } else {
      RevertMovesAllBack(txs[1..], miner, m);
      var m1 := RevertLastFirst(txs[1..], miner, m);
      forall w: Address
        ensures Balance(Revert(txs[0], miner, m1), w) == (Balance(m, w) - NetAll(txs, miner, false, w)) % TWO_64
      {
        RevertMovesBack(txs[0], miner, m1, w);
        TwoSteps(Balance(m, w), Balance(m1, w), Balance(Revert(txs[0], miner, m1), w),
                 -NetAll(txs[1..], miner, false, w), -Net(txs[0], miner, false, w));
      }
    }
  }

  method RollbackLedger(t: Transaction, miner: Address, ledger: Ledger) returns (ok: bool)
    modifies ledger
    ensures ok <==> Touched(t, miner, old(ledger.wallets.Keys))
    ensures ledger.wallets.Keys == old(ledger.wallets).Keys
    ensures ok ==> ledger.wallets == Revert(t, miner, old(ledger.wallets))
  {
    if t.Fee? {
      ok := ledger.RevertDeposit(t.to, t.amount);
    } else {
      ok := ledger.RevertDeposit(t.to, t.amount);
      if !ok { return; }
      ok := ledger.RevertSend(t.from, t.amount);
      if !ok { return; }
      if t.fee > 0 {
        ok := ledger.RevertDeposit(miner, t.fee);
        if !ok { return; }
        ok := ledger.RevertSend(t.from, t.fee);
      }
    }
  }

  /** Undoes a whole stored block, last transaction first. */
  method RollbackBlock(c: Crypto, b: Block, ledger: Ledger, txdb: TransactionStore) returns (ok: bool)
    modifies ledger, txdb
    ensures ok <==> forall t <- b.transactions :: Touched(t, Miner(b.transactions), old(ledger.wallets.Keys))
    ensures ledger.wallets.Keys == old(ledger.wallets).Keys
    ensures ok ==> forall w: Address :: Balance(ledger.wallets, w)
                     == (Balance(old(ledger.wallets), w)
                         - NetAll(b.transactions, Miner(b.transactions), false, w)) % TWO_64
    ensures ok ==> txdb.index == old(txdb.index) - TransferHashes(c, b.transactions)
  {
    hide Revert, Miner, NetAll, ContentHash, TransferHashes;
    var txs := b.transactions;
    var miner := FindMiner(txs);
    var i := |txs|;
    TransferHashesNone(c);
    while i > 0
      invariant 0 <= i <= |txs|
      invariant forall t <- txs[i..] :: Touched(t, miner, old(ledger.wallets.Keys))
      invariant ledger.wallets == RevertLastFirst(txs[i..], miner, old(ledger.wallets))
      invariant ledger.wallets.Keys == old(ledger.wallets.Keys)
      invariant txdb.index == old(txdb.index) - TransferHashes(c, txs[i..])
    {
      i := i - 1;
      assert txs[i..][0] == txs[i] && txs[i..][1..] == txs[i + 1..];
      TransferHashesCons(c, txs[i..]);
      ok := RollbackLedger(txs[i], miner, ledger);
      if !ok {
        return;
      }
      if !txs[i].Fee? {
        txdb.RemoveTransaction(c, txs[i]);
      }
    }
    ok := true;
    assert txs[0..] == txs;
    RevertMovesAllBack(txs, miner, old(ledger.wallets));
  }

  method FindMiner(txs: seq<Transaction>) returns (miner: Address)
    ensures miner == Miner(txs)
  {
    miner := NULL_ADDRESS;
    for i := 0 to |txs|
      invariant Miner(txs) == Miner(txs[i..])
      invariant miner == NULL_ADDRESS
    {
      if txs[i].Fee? {
        return txs[i].to;
      }
      assert txs[i..][1..] == txs[i + 1..];
    }
  }

  lemma TransferHashesNone(c: Crypto)
    ensures TransferHashes(c, []) == {}
  {
  }

  lemma TransferHashesCons(c: Crypto, txs: seq<Transaction>)
    requires txs != []
    ensures TransferHashes(c, txs)
            == TransferHashes(c, txs[1..]) + (if txs[0].Transfer? then {ContentHash(c, txs[0])} else {})
  {
    assert forall t :: t in txs <==> t == txs[0] || t in txs[1..];
  }

  /** A transaction on its own: only used for one that is not a fee. */
  method ExecuteTransaction(c: Crypto, t: Transaction, ledger: Ledger, state: LedgerState) returns (status: Status)
    modifies ledger, state
    ensures !SignatureValid(c, t) ==> status == INVALID_SIGNATURE
    ensures SignatureValid(c, t) && !SenderMatches(c, t) ==> status == WALLET_SIGNATURE_MISMATCH
    ensures SignatureValid(c, t) && SenderMatches(c, t) ==> status == UpdateStatus(c, t, old(ledger.wallets), 0, 0)
    ensures forall base: Balances :: Tracks(base, old(ledger.wallets), old(state.deltas))
              ==> Tracks(base, ledger.wallets, state.deltas)
    ensures status == SUCCESS ==> ledger.wallets == Apply(t, NULL_ADDRESS, false, old(ledger.wallets))
    ensures status != SUCCESS ==> ledger.wallets == old(ledger.wallets)
  {
    if !t.Fee? && !SignatureValid(c, t) {
      return INVALID_SIGNATURE;
    }
    if !t.Fee? && c.addressOf(t.signingKey) != t.from {
      return WALLET_SIGNATURE_MISMATCH;
    }
    status := UpdateLedger(c, t, NULL_ADDRESS, ledger, state, 0, 0);
    forall base: Balances | Tracks(base, old(ledger.wallets), old(state.deltas)) && status == SUCCESS
      ensures Tracks(base, ledger.wallets, state.deltas)
    {
      ApplyTracks(t, NULL_ADDRESS, false, base, old(ledger.wallets), old(state.deltas));
    }
  }

  /** The first pass: nothing is touched until the whole block has been looked at. */
  method ScanBlock(c: Crypto, b: Block, txdb: TransactionStore)
      returns (status: Status, miner: Address, miningFee: uint64)
    ensures status == Scan(c, b.transactions, txdb.index.Keys, b.id, false)
    ensures status == SUCCESS ==> miner == Miner(b.transactions) && miningFee == FeeAmount(b.transactions)
  {
    var txs := b.transactions;
    var foundFee := false;
    miner, miningFee := NULL_ADDRESS, 0;
    assert txs[0..] == txs;
    for i := 0 to |txs|
      invariant Scan(c, txs, txdb.index.Keys, b.id, false) == Scan(c, txs[i..], txdb.index.Keys, b.id, foundFee)
      invariant !foundFee ==> Miner(txs) == Miner(txs[i..]) && FeeAmount(txs) == FeeAmount(txs[i..])
      invariant foundFee ==> miner == Miner(txs) && miningFee == FeeAmount(txs)
    {
      var t := txs[i];
      assert txs[i..][1..] == txs[i + 1..];
      if t.Fee? {
        if foundFee { return EXTRA_MINING_FEE, miner, miningFee; }
        miner, miningFee, foundFee := t.to, t.amount, true;
      } else {
        var known := txdb.HasTransaction(c, t);
        if known && b.id != 1 { return EXPIRED_TRANSACTION, miner, miningFee; }
      }
      if !t.Fee? && b.id > WALLET_SIG_FORK_BLOCK && c.addressOf(t.signingKey) != t.from {
        return WALLET_SIGNATURE_MISMATCH, miner, miningFee;
      }
    }
    status := if foundFee then SUCCESS else NO_MINING_FEE;
  }

  method ExecuteBlock(c: Crypto, b: Block, ledger: Ledger, txdb: TransactionStore, state: LedgerState, blockFee: uint64)
    returns (status: Status)
    modifies ledger, state
    ensures var r := Execute(c, b, old(ledger.wallets), old(state.deltas), txdb.index.Keys, blockFee);
            status == r.status && ledger.wallets == r.ledger && state.deltas == r.deltas
  {
    var miner, miningFee;
    status, miner, miningFee := ScanBlock(c, b, txdb);
    if status != SUCCESS {
      return;
    }
    if miningFee != blockFee {
      return INCORRECT_MINING_FEE;
    }
    var txs := b.transactions;
    ghost var r := RunAll(c, txs, miner, ledger.wallets, state.deltas, blockFee, b.id);
    assert txs[0..] == txs;
    for i := 0 to |txs|
      invariant r == RunAll(c, txs[i..], miner, ledger.wallets, state.deltas, blockFee, b.id)
    {
      var t := txs[i];
      assert txs[i..][1..] == txs[i + 1..];
      if !t.Fee? && !SignatureValid(c, t) && b.id != 1 {
        return INVALID_SIGNATURE;
      }
      status := UpdateLedger(c, t, miner, ledger, state, blockFee, b.id);
      if status != SUCCESS {
        return;
      }
    }
    status := SUCCESS;
  }
}
