/** What executing a block means: which status it ends in, and by how much every
    wallet's balance moves. */
module Execution {
  import opened Words
  import opened Records
  import opened Ledgers

  datatype Status =
    | SENDER_DOES_NOT_EXIST | BALANCE_TOO_LOW | INVALID_SIGNATURE | INVALID_NONCE
    | EXTRA_MINING_FEE | INCORRECT_MINING_FEE | INVALID_BLOCK_ID | NO_MINING_FEE
    | INVALID_DIFFICULTY | BLOCK_TIMESTAMP_TOO_OLD | BLOCK_TIMESTAMP_IN_FUTURE
    | EXPIRED_TRANSACTION | INVALID_MERKLE_ROOT | INVALID_LASTBLOCK_HASH
    | INVALID_TRANSACTION_COUNT | WALLET_SIGNATURE_MISMATCH | SUCCESS
    | UNDEFINED   // not a status: the program would take the front of an empty queue

  const WALLET_SIG_FORK_BLOCK: int := 11500

  // ----- one transaction -----

  function UpdateStatus(c: Crypto, t: Transaction, m: Balances, blockFee: uint64, id: uint32): Status {
    if id > WALLET_SIG_FORK_BLOCK && !SenderMatches(c, t) then WALLET_SIGNATURE_MISMATCH
    else if t.Fee? then
      if t.amount == blockFee then SUCCESS else INCORRECT_MINING_FEE
    else if id == 1 then SUCCESS
    else if t.from !in m then SENDER_DOES_NOT_EXIST
    else if m[t.from] < Add64(t.amount, t.fee) then BALANCE_TOO_LOW
    else SUCCESS
  }

  /** The order in which one transaction touches a balance map.  The ledger and
      the record of deltas are updated alike. */
  function Apply(t: Transaction, miner: Address, genesis: bool, m: Balances): Balances {
    if t.Fee? || genesis then Credit(m, t.to, t.amount)
    else
      var moved := Credit(Debit(m, t.from, t.amount), t.to, t.amount);
      if t.fee > 0 then Credit(Debit(moved, t.from, t.fee), miner, t.fee) else moved
  }

  function On(w: Address, k: Address, amount: uint64): int {
    if w == k then amount else 0
  }

  /** By how much a transaction is meant to move the balance of w. */
  function Net(t: Transaction, miner: Address, genesis: bool, w: Address): int {
    if t.Fee? || genesis then On(w, t.to, t.amount)
    else
      (On(w, t.to, t.amount) - On(w, t.from, t.amount))
      + (On(w, miner, t.fee) - On(w, t.from, t.fee))
  }

  /** The payee gains the amount, the miner the fee, and the payer loses both, whoever of
      them are the same; a fee or a genesis deposit comes out of nothing. */
  lemma NetIs(t: Transaction, miner: Address, genesis: bool, w: Address)
    ensures var amount: int, fee: int := t.amount, t.fee;
            Net(t, miner, genesis, w)
            == if t.Fee? || genesis then if w == t.to then amount else 0
               else (if w == t.to then amount else 0) + (if w == miner then fee else 0)
                    - (if w == t.from then amount + fee else 0)
  {
  }

  lemma CreditAt(m: Balances, k: Address, amount: uint64, w: Address)
    ensures Balance(Credit(m, k, amount), w) == (Balance(m, w) + On(w, k, amount)) % TWO_64
  {
  }

  lemma DebitAt(m: Balances, k: Address, amount: uint64, w: Address)
    ensures Balance(Debit(m, k, amount), w) == (Balance(m, w) - On(w, k, amount)) % TWO_64
  {
  }

  lemma TwoSteps(x: int, y: int, z: int, a: int, b: int)
    requires y == (x + a) % TWO_64 && z == (y + b) % TWO_64
    ensures z == (x + (a + b)) % TWO_64
  {
  }

  /** Paying an amount moves the payer and the payee, who may be the same. */
  lemma PayAt(m: Balances, from: Address, to: Address, amount: uint64, w: Address)
    ensures Balance(Credit(Debit(m, from, amount), to, amount), w)
            == (Balance(m, w) + (On(w, to, amount) - On(w, from, amount))) % TWO_64
  {
    var m1 := Debit(m, from, amount);
    DebitAt(m, from, amount, w);
    CreditAt(m1, to, amount, w);
    TwoSteps(Balance(m, w), Balance(m1, w), Balance(Credit(m1, to, amount), w), -On(w, from, amount),
             On(w, to, amount));
  }

  lemma ApplyMovesByNet(t: Transaction, miner: Address, genesis: bool, m: Balances, w: Address)
    ensures Balance(Apply(t, miner, genesis, m), w) == (Balance(m, w) + Net(t, miner, genesis, w)) % TWO_64
  {
    if t.Fee? || genesis {
      CreditAt(m, t.to, t.amount, w);
    } else {
      var m1 := Credit(Debit(m, t.from, t.amount), t.to, t.amount);
      PayAt(m, t.from, t.to, t.amount, w);
      if t.fee > 0 {
        var m2 := Credit(Debit(m1, t.from, t.fee), miner, t.fee);
        PayAt(m1, t.from, miner, t.fee, w);
        TwoSteps(Balance(m, w), Balance(m1, w), Balance(m2, w),
                 On(w, t.to, t.amount) - On(w, t.from, t.amount), On(w, miner, t.fee) - On(w, t.from, t.fee));
      }
    }
  }

  // ----- a list of transactions -----

  /** The content hashes of the transfers among txs. */
  function TransferHashes(c: Crypto, txs: seq<Transaction>): set<Hash> {
    set t | t in txs && t.Transfer? :: ContentHash(c, t)
  }

  function NetAll(txs: seq<Transaction>, miner: Address, genesis: bool, w: Address): int {
    if txs == [] then 0 else Net(txs[0], miner, genesis, w) + NetAll(txs[1..], miner, genesis, w)
  }

  lemma {:induction false} NetAllSnoc(txs: seq<Transaction>, t: Transaction, miner: Address, genesis: bool, w: Address)
    ensures NetAll(txs + [t], miner, genesis, w) == NetAll(txs, miner, genesis, w) + Net(t, miner, genesis, w)
  {
    if txs == [] {
    } else {
      NetAllSnoc(txs[1..], t, miner, genesis, w);
      assert (txs + [t])[1..] == txs[1..] + [t];
    }
  }

  datatype Outcome = Outcome(status: Status, ledger: Balances, deltas: Balances)

  /** Executing transactions one after the other, stopping at the first failure. */
  function RunAll(c: Crypto, txs: seq<Transaction>, miner: Address, m: Balances, d: Balances,
                  blockFee: uint64, id: uint32): Outcome
  {
    if txs == [] then Outcome(SUCCESS, m, d)
    else
      var t := txs[0];
      if !SignatureValid(c, t) && id != 1 then Outcome(INVALID_SIGNATURE, m, d)
      else
        var s := UpdateStatus(c, t, m, blockFee, id);
        if s != SUCCESS then Outcome(s, m, d)
        else RunAll(c, txs[1..], miner, Apply(t, miner, id == 1, m), Apply(t, miner, id == 1, d), blockFee, id)
  }

  /** The first pass over a block, before any balance is touched. */
  function Scan(c: Crypto, txs: seq<Transaction>, known: set<Hash>, id: uint32, foundFee: bool): Status {
    if txs == [] then
      if foundFee then SUCCESS else NO_MINING_FEE
    else
      var t := txs[0];
      if t.Fee? && foundFee then EXTRA_MINING_FEE
      else if t.Transfer? && id != 1 && ContentHash(c, t) in known then EXPIRED_TRANSACTION
      else if id > WALLET_SIG_FORK_BLOCK && !SenderMatches(c, t) then WALLET_SIGNATURE_MISMATCH
      else Scan(c, txs[1..], known, id, foundFee || t.Fee?)
  }

  function Fees(txs: seq<Transaction>): nat {
    if txs == [] then 0 else (if txs[0].Fee? then 1 else 0) + Fees(txs[1..])
  }

  /** The first fee transaction pays the miner. */
  function FirstFee(txs: seq<Transaction>): (t: Transaction)
    requires Fees(txs) > 0
    ensures t.Fee? && t in txs
  {
    if txs[0].Fee? then txs[0] else FirstFee(txs[1..])
  }

  function Miner(txs: seq<Transaction>): Address {
    if Fees(txs) > 0 then FirstFee(txs).to else NULL_ADDRESS
  }

  /** The scan accepts exactly the blocks with one fee whose transfers are new
      and, past the fork, come from the wallet of the key that signed them. */
  lemma {:induction false} ScanAccepts(c: Crypto, txs: seq<Transaction>, known: set<Hash>, id: uint32, foundFee: bool)
    ensures Scan(c, txs, known, id, foundFee) == SUCCESS <==>
              && Fees(txs) + (if foundFee then 1 else 0) == 1
              && (id != 1 ==> forall t <- txs :: t.Transfer? ==> ContentHash(c, t) !in known)
              && (id > WALLET_SIG_FORK_BLOCK ==> forall t <- txs :: SenderMatches(c, t))
  {
    if txs == [] {
    } else {
      ScanAccepts(c, txs[1..], known, id, foundFee || txs[0].Fee?);
      assert forall t :: t in txs <==> t == txs[0] || t in txs[1..];
    }
  }

  function Execute(c: Crypto, b: Block, m: Balances, d: Balances, known: set<Hash>, blockFee: uint64): Outcome {
    var s := Scan(c, b.transactions, known, b.id, false);
    if s != SUCCESS then Outcome(s, m, d)
    else if FeeAmount(b.transactions) != blockFee then Outcome(INCORRECT_MINING_FEE, m, d)
    else RunAll(c, b.transactions, Miner(b.transactions), m, d, blockFee, b.id)
  }

  function FeeAmount(txs: seq<Transaction>): uint64 {
    if Fees(txs) > 0 then FirstFee(txs).amount else 0
  }

  function BlockNet(b: Block, w: Address): int {
    NetAll(b.transactions, Miner(b.transactions), b.id == 1, w)
  }

  // ----- partial failure leaves a trace that undoes it -----

  /** m is base moved by d, and every wallet that moved exists. */
  ghost predicate Tracks(base: Balances, m: Balances, d: Balances) {
    && base.Keys <= m.Keys && d.Keys <= m.Keys
    && forall w: Address :: Balance(m, w) == Add64(Balance(base, w), Balance(d, w))
  }

  lemma SameStep(base: int, d: int, m: int, d': int, m': int, n: int)
    requires m == (base + d) % TWO_64
    requires d' == (d + n) % TWO_64 && m' == (m + n) % TWO_64
    ensures m' == (base + d') % TWO_64
  {
  }

  lemma ApplyTracks(t: Transaction, miner: Address, genesis: bool, base: Balances, m: Balances, d: Balances)
    requires Tracks(base, m, d)
    ensures Tracks(base, Apply(t, miner, genesis, m), Apply(t, miner, genesis, d))
    ensures m.Keys <= Apply(t, miner, genesis, m).Keys
  {
    var m', d' := Apply(t, miner, genesis, m), Apply(t, miner, genesis, d);
    forall w: Address
      ensures Balance(m', w) == Add64(Balance(base, w), Balance(d', w))
    {
      ApplyMovesByNet(t, miner, genesis, m, w);
      ApplyMovesByNet(t, miner, genesis, d, w);
      SameStep(Balance(base, w), Balance(d, w), Balance(m, w), Balance(d', w), Balance(m', w),
               Net(t, miner, genesis, w));
    }
  }

  lemma {:induction false} RunTracks(c: Crypto, txs: seq<Transaction>, miner: Address, base: Balances,
                                     m: Balances, d: Balances, blockFee: uint64, id: uint32)
    requires Tracks(base, m, d)
    ensures var r := RunAll(c, txs, miner, m, d, blockFee, id);
            Tracks(base, r.ledger, r.deltas) && m.Keys <= r.ledger.Keys
  {
    if txs == [] {
    } else {
      var t := txs[0];
      if (SignatureValid(c, t) || id == 1) && UpdateStatus(c, t, m, blockFee, id) == SUCCESS {
        ApplyTracks(t, miner, id == 1, base, m, d);
        RunTracks(c, txs[1..], miner, base, Apply(t, miner, id == 1, m), Apply(t, miner, id == 1, d), blockFee, id);
      }
    }
  }

  /** Wherever execution stops, every balance is its old value plus its delta. */
  lemma ExecuteTracks(c: Crypto, b: Block, m: Balances, known: set<Hash>, blockFee: uint64)
    ensures var r := Execute(c, b, m, map[], known, blockFee);
            Tracks(m, r.ledger, r.deltas)
  {
    RunTracks(c, b.transactions, Miner(b.transactions), m, m, map[], blockFee, b.id);
  }

  // ----- success -----

  /** Every wallet that undoing t will look up exists. */
  predicate Touched(t: Transaction, miner: Address, wallets: set<Address>) {
    && t.to in wallets
    && (t.Transfer? ==> t.from in wallets && (t.fee > 0 ==> miner in wallets))
  }

  lemma ApplyTouches(t: Transaction, miner: Address, m: Balances)
    ensures m.Keys <= Apply(t, miner, false, m).Keys
    ensures Touched(t, miner, Apply(t, miner, false, m).Keys)
  {
  }

  lemma {:induction false} RunTouches(c: Crypto, txs: seq<Transaction>, miner: Address,
                                      m: Balances, d: Balances, blockFee: uint64, id: uint32)
    requires RunAll(c, txs, miner, m, d, blockFee, id).status == SUCCESS
    ensures var m' := RunAll(c, txs, miner, m, d, blockFee, id).ledger;
            && m.Keys <= m'.Keys
            && (id != 1 ==> forall t <- txs :: Touched(t, miner, m'.Keys))
  {
    if txs == [] {
    } else {
      var t := txs[0];
      ApplyTouches(t, miner, m);
      RunTouches(c, txs[1..], miner, Apply(t, miner, id == 1, m), Apply(t, miner, id == 1, d), blockFee, id);
    }
  }

  lemma RunStep(c: Crypto, txs: seq<Transaction>, miner: Address, m: Balances, d: Balances, blockFee: uint64,
                id: uint32)
    requires txs != [] && RunAll(c, txs, miner, m, d, blockFee, id).status == SUCCESS
    ensures RunAll(c, txs, miner, m, d, blockFee, id)
            == RunAll(c, txs[1..], miner, Apply(txs[0], miner, id == 1, m), Apply(txs[0], miner, id == 1, d),
                      blockFee, id)
  {
  }

  lemma NetAllStep(txs: seq<Transaction>, miner: Address, genesis: bool, w: Address, n: int)
    requires txs != [] && n == Net(txs[0], miner, genesis, w)
    ensures NetAll(txs, miner, genesis, w) == n + NetAll(txs[1..], miner, genesis, w)
  {
  }

  /** y is x moved by n, modulo 2^64. */
  predicate MovedBy(x: int, n: int, y: int) { y == (x + n) % TWO_64 }

  lemma MovedTwice(x: int, n: int, y: int, n': int, z: int)
    requires MovedBy(x, n, y) && MovedBy(y, n', z)
    ensures MovedBy(x, n + n', z)
  {
    TwoSteps(x, y, z, n, n');
  }

  lemma StepMovesByNet(t: Transaction, miner: Address, genesis: bool, m: Balances, w: Address)
    ensures MovedBy(Balance(m, w), Net(t, miner, genesis, w), Balance(Apply(t, miner, genesis, m), w))
  {
    ApplyMovesByNet(t, miner, genesis, m, w);
  }

  lemma {:induction false} RunMovesByNet(c: Crypto, txs: seq<Transaction>, miner: Address, m: Balances, d: Balances,
                                         blockFee: uint64, id: uint32, w: Address)
    requires RunAll(c, txs, miner, m, d, blockFee, id).status == SUCCESS
    ensures MovedBy(Balance(m, w), NetAll(txs, miner, id == 1, w),
                    Balance(RunAll(c, txs, miner, m, d, blockFee, id).ledger, w))
  {
    if txs == [] {
    } else {
      hide Apply, Net, RunAll, NetAll, Balance, MovedBy;
      RunStep(c, txs, miner, m, d, blockFee, id);
      var m1, d1 := Apply(txs[0], miner, id == 1, m), Apply(txs[0], miner, id == 1, d);
      var n, rest := Net(txs[0], miner, id == 1, w), NetAll(txs[1..], miner, id == 1, w);
      StepMovesByNet(txs[0], miner, id == 1, m, w);
      RunMovesByNet(c, txs[1..], miner, m1, d1, blockFee, id, w);
      MovedTwice(Balance(m, w), n, Balance(m1, w), rest, Balance(RunAll(c, txs, miner, m, d, blockFee, id).ledger, w));
      NetAllStep(txs, miner, id == 1, w, n);
    }
  }

  // ----- the same transactions on another ledger -----

  /** A transfer that needs a balance: its amount and fee do not add up to zero. */
  predicate NeedsBalance(t: Transaction) { t.Transfer? ==> Add64(t.amount, t.fee) > 0 }

  /** The wallets that exist once t has been executed, if its sender's did. */
  function Named(t: Transaction, miner: Address, genesis: bool): set<Address> {
    if t.Fee? || genesis then {t.to}
    else {t.from, t.to} + (if t.fee > 0 then {miner} else {})
  }

  function NamedAll(txs: seq<Transaction>, miner: Address, genesis: bool): set<Address> {
    if txs == [] then {} else Named(txs[0], miner, genesis) + NamedAll(txs[1..], miner, genesis)
  }

  /** Every transfer of nothing finds its sender among the wallets named before it. */
  predicate SendersNamed(txs: seq<Transaction>, miner: Address, genesis: bool, named: set<Address>) {
    txs != [] ==>
      && (genesis || NeedsBalance(txs[0]) || txs[0].from in named)
      && SendersNamed(txs[1..], miner, genesis, named + Named(txs[0], miner, genesis))
  }

  lemma ApplyNames(t: Transaction, miner: Address, genesis: bool, m: Balances)
    ensures Apply(t, miner, genesis, m).Keys == m.Keys + Named(t, miner, genesis)
  {
  }

  lemma {:induction false} RunNames(c: Crypto, txs: seq<Transaction>, miner: Address,
                                    m: Balances, d: Balances, blockFee: uint64, id: uint32)
    requires RunAll(c, txs, miner, m, d, blockFee, id).status == SUCCESS
    ensures RunAll(c, txs, miner, m, d, blockFee, id).ledger.Keys == m.Keys + NamedAll(txs, miner, id == 1)
  {
    if txs == [] {
    } else {
      hide Apply, Named;
      var m1, d1 := Apply(txs[0], miner, id == 1, m), Apply(txs[0], miner, id == 1, d);
      RunStep(c, txs, miner, m, d, blockFee, id);
      ApplyNames(txs[0], miner, id == 1, m);
      RunNames(c, txs[1..], miner, m1, d1, blockFee, id);
    }
  }

  /** What succeeds on one ledger succeeds on another with the same balances exactly if
      no transfer gets by there on the mere existence of an empty wallet. */
  lemma {:induction false} RunElsewhere(c: Crypto, txs: seq<Transaction>, miner: Address, m: Balances, m': Balances,
                                        d: Balances, d': Balances, blockFee: uint64, id: uint32)
    requires RunAll(c, txs, miner, m, d, blockFee, id).status == SUCCESS
    requires forall w: Address :: Balance(m, w) == Balance(m', w)
    ensures RunAll(c, txs, miner, m', d', blockFee, id).status == SUCCESS
            <==> SendersNamed(txs, miner, id == 1, m'.Keys)
  {
    if txs == [] {
    } else {
      hide Apply, Named, Balance, UpdateStatus, NeedsBalance;
      var t, genesis := txs[0], id == 1;
      SameStatus(c, t, m, m', blockFee, id);
      if UpdateStatus(c, t, m', blockFee, id) == SUCCESS {
        var m1, m1' := Apply(t, miner, genesis, m), Apply(t, miner, genesis, m');
        ApplySame(t, miner, genesis, m, m');
        ApplyNames(t, miner, genesis, m');
        RunElsewhere(c, txs[1..], miner, m1, m1', Apply(t, miner, genesis, d), Apply(t, miner, genesis, d'), blockFee,
                     id);
      }
    }
  }

  lemma SameStatus(c: Crypto, t: Transaction, m: Balances, m': Balances, blockFee: uint64, id: uint32)
    requires UpdateStatus(c, t, m, blockFee, id) == SUCCESS
    requires forall w: Address :: Balance(m, w) == Balance(m', w)
    ensures UpdateStatus(c, t, m', blockFee, id) == SUCCESS <==> id == 1 || NeedsBalance(t) || t.from in m'
  {
    if t.Transfer? {
      assert Balance(m, t.from) == Balance(m', t.from);
    }
  }

  lemma ApplySame(t: Transaction, miner: Address, genesis: bool, m: Balances, m': Balances)
    requires forall w: Address :: Balance(m, w) == Balance(m', w)
    ensures forall w: Address :: Balance(Apply(t, miner, genesis, m), w) == Balance(Apply(t, miner, genesis, m'), w)
  {
    forall w: Address
      ensures Balance(Apply(t, miner, genesis, m), w) == Balance(Apply(t, miner, genesis, m'), w)
    {
      ApplyMovesByNet(t, miner, genesis, m, w);
      ApplyMovesByNet(t, miner, genesis, m', w);
    }
  }

  // ----- success -----

  /** An accepted block moves every balance by exactly its net amount. */
  lemma ExecuteSucceeds(c: Crypto, b: Block, m: Balances, known: set<Hash>, blockFee: uint64)
    requires Execute(c, b, m, map[], known, blockFee).status == SUCCESS
    ensures var m' := Execute(c, b, m, map[], known, blockFee).ledger;
            && m.Keys <= m'.Keys
            && (forall w: Address :: Balance(m', w) == (Balance(m, w) + BlockNet(b, w)) % TWO_64)
            && (b.id != 1 ==> forall t <- b.transactions :: Touched(t, Miner(b.transactions), m'.Keys))
  {
    hide RunAll, NetAll, Scan, Miner, Touched, FeeAmount;
    RunTouches(c, b.transactions, Miner(b.transactions), m, map[], blockFee, b.id);
    forall w: Address
      ensures Balance(Execute(c, b, m, map[], known, blockFee).ledger, w) == (Balance(m, w) + BlockNet(b, w)) % TWO_64
    {
      RunMovesByNet(c, b.transactions, Miner(b.transactions), m, map[], blockFee, b.id, w);
    }
  }
}
