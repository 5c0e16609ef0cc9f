/** Which transfers can be on the chain twice. */
module Repeats {
  import opened Words
  import opened Records
  import opened Ledgers
  import opened Execution
  import opened ChainSpec

  /** The transfer at position j of block i. */
  predicate TransferAt(s: seq<Block>, i: nat, j: nat) {
    i < |s| && j < |s[i].transactions| && s[i].transactions[j].Transfer?
  }

  predicate SameTransfer(c: Crypto, s: seq<Block>, i: nat, j: nat, k: nat, l: nat)
    requires TransferAt(s, i, j) && TransferAt(s, k, l)
  {
    ContentHash(c, s[i].transactions[j]) == ContentHash(c, s[k].transactions[l])
  }

  /** No two transfers of the block share a content hash. */
  ghost predicate DistinctIn(c: Crypto, b: Block) {
    forall j, k :: 0 <= j < k < |b.transactions| && b.transactions[j].Transfer? && b.transactions[k].Transfer? ==>
                     ContentHash(c, b.transactions[j]) != ContentHash(c, b.transactions[k])
  }

  /** A content hash tells all transfers of the chain apart exactly if it does so within
      each block, where the program does not look for repeats. */
  lemma TransfersDistinct(c: Crypto, s: seq<Block>)
    requires NoRepeats(c, s)
    ensures (forall b <- s :: DistinctIn(c, b))
            <==> forall i: nat, j: nat, k: nat, l: nat ::
                   TransferAt(s, i, j) && TransferAt(s, k, l) && SameTransfer(c, s, i, j, k, l) ==> i == k && j == l
  {
    hide ContentHash, NoRepeats;
    if forall b <- s :: DistinctIn(c, b) {
      forall i: nat, j: nat, k: nat, l: nat | TransferAt(s, i, j) && TransferAt(s, k, l)
          && SameTransfer(c, s, i, j, k, l)
        ensures i == k && j == l
      {
        TransfersUnique(c, s, ContentHash(c, s[i].transactions[j]), i, k);
        assert s[i] in s && DistinctIn(c, s[i]);
      }
    } else {
      var b :| b in s && !DistinctIn(c, b);
      var i :| 0 <= i < |s| && s[i] == b;
      var j, k :| 0 <= j < k < |b.transactions| && b.transactions[j].Transfer? && b.transactions[k].Transfer?
                  && ContentHash(c, b.transactions[j]) == ContentHash(c, b.transactions[k]);
      assert TransferAt(s, i, j) && TransferAt(s, i, k) && SameTransfer(c, s, i, j, i, k);
    }
  }

  // ----- the same transfer twice in one block -----

  function Without<T>(s: seq<T>, i: nat): seq<T>
    requires i < |s|
  {
    s[..i] + s[i + 1..]
  }

  lemma {:induction false} NetWithout(txs: seq<Transaction>, i: nat, miner: Address, genesis: bool, w: Address)
    requires i < |txs|
    ensures NetAll(txs, miner, genesis, w)
            == Net(txs[i], miner, genesis, w) + NetAll(Without(txs, i), miner, genesis, w)
  {
    if i == 0 {
      assert Without(txs, 0) == txs[1..];
    } else {
      NetWithout(txs[1..], i - 1, miner, genesis, w);
      assert Without(txs, i)[0] == txs[0] && Without(txs, i)[1..] == Without(txs[1..], i - 1);
    }
  }

  /** Wherever an executed block has the same transfer twice, every balance moves by it
      twice. */
  lemma BothPaid(c: Crypto, b: Block, m: Balances, known: set<Hash>, blockFee: uint64, i: nat, j: nat, w: Address)
    requires Execute(c, b, m, map[], known, blockFee).status == SUCCESS
    requires i < j < |b.transactions| && b.transactions[i] == b.transactions[j]
    ensures var txs, miner, genesis := b.transactions, Miner(b.transactions), b.id == 1;
            Balance(Execute(c, b, m, map[], known, blockFee).ledger, w)
            == (Balance(m, w) + (2 * Net(txs[i], miner, genesis, w)
                                 + NetAll(Without(Without(txs, j), i), miner, genesis, w))) % TWO_64
  {
    hide Execute, Net, NetAll, Miner;
    ExecuteSucceeds(c, b, m, known, blockFee);
    NetWithout(b.transactions, j, Miner(b.transactions), b.id == 1, w);
    NetWithout(Without(b.transactions, j), i, Miner(b.transactions), b.id == 1, w);
  }

  function With<T>(s: seq<T>, j: nat, x: T): seq<T>
    requires j <= |s|
  {
    s[..j] + [x] + s[j..]
  }

  lemma {:induction false} FeesWith(txs: seq<Transaction>, j: nat, t: Transaction)
    requires j <= |txs| && t.Transfer?
    ensures Fees(With(txs, j, t)) == Fees(txs)
    ensures Fees(txs) > 0 ==> FirstFee(With(txs, j, t)) == FirstFee(txs)
  {
    if j == 0 {
      assert With(txs, 0, t)[1..] == txs;
    } else {
      FeesWith(txs[1..], j - 1, t);
      assert With(txs, j, t)[0] == txs[0] && With(txs, j, t)[1..] == With(txs[1..], j - 1, t);
    }
  }

  lemma {:induction false} RunAppend(c: Crypto, p: seq<Transaction>, q: seq<Transaction>, miner: Address,
                                     m: Balances, d: Balances, blockFee: uint64, id: uint32)
    ensures var r := RunAll(c, p, miner, m, d, blockFee, id);
            RunAll(c, p + q, miner, m, d, blockFee, id)
            == if r.status == SUCCESS then RunAll(c, q, miner, r.ledger, r.deltas, blockFee, id) else r
  {
    if p == [] {
      assert p + q == q;
    } else {
      hide Apply, UpdateStatus, SignatureValid;
      RunAppend(c, p[1..], q, miner, Apply(p[0], miner, id == 1, m), Apply(p[0], miner, id == 1, d), blockFee, id);
      assert (p + q)[0] == p[0] && (p + q)[1..] == p[1..] + q;
    }
  }

  /** A further copy of one of its transfers, put anywhere into an executed block, is only
      asked for what any transfer is asked for when its turn comes, and so is what follows
      it.  At the end of the block it passes exactly if the payer can pay once more. */
  lemma CopyPasses(c: Crypto, b: Block, m: Balances, known: set<Hash>, blockFee: uint64, t: Transaction, j: nat)
    requires t in b.transactions && t.Transfer? && j <= |b.transactions| && b.id != 1
    requires Execute(c, b, m, map[], known, blockFee).status == SUCCESS
    ensures var txs, miner := b.transactions, Miner(b.transactions);
            var front, r := RunAll(c, txs[..j], miner, m, map[], blockFee, b.id),
                            Execute(c, b.(transactions := With(txs, j, t)), m, map[], known, blockFee);
            && front.status == SUCCESS
            && r == RunAll(c, [t] + txs[j..], miner, front.ledger, front.deltas, blockFee, b.id)
            && (j == |txs| ==> (r.status == SUCCESS <==> Balance(front.ledger, t.from) >= Add64(t.amount, t.fee)))
  {
    hide RunAll, ContentHash, Apply, Scan, SignatureValid;
    var txs, miner := b.transactions, Miner(b.transactions);
    FeesWith(txs, j, t);
    ScanAccepts(c, txs, known, b.id, false);
    ScanAccepts(c, With(txs, j, t), known, b.id, false);
    assert forall x :: x in With(txs, j, t) <==> x in txs;
    assert txs[..j] + txs[j..] == txs && txs[..j] + ([t] + txs[j..]) == With(txs, j, t);
    RunAppend(c, txs[..j], txs[j..], miner, m, map[], blockFee, b.id);
    RunAppend(c, txs[..j], [t] + txs[j..], miner, m, map[], blockFee, b.id);
    if j == |txs| {
      assert [t] + txs[j..] == [t] && txs[..j] == txs;
      var front := RunAll(c, txs, miner, m, map[], blockFee, b.id);
      AllSigned(c, txs, miner, m, map[], blockFee, b.id);
      ExecuteSucceeds(c, b, m, known, blockFee);
      RunOne(c, t, miner, front.ledger, front.deltas, blockFee, b.id);
    }
  }

  lemma {:induction false} AllSigned(c: Crypto, txs: seq<Transaction>, miner: Address, m: Balances, d: Balances,
                                     blockFee: uint64, id: uint32)
    requires id != 1 && RunAll(c, txs, miner, m, d, blockFee, id).status == SUCCESS
    ensures forall t <- txs :: SignatureValid(c, t)
  {
    if txs == [] {
    } else {
      hide Apply, UpdateStatus, SignatureValid;
      AllSigned(c, txs[1..], miner, Apply(txs[0], miner, id == 1, m), Apply(txs[0], miner, id == 1, d), blockFee, id);
      assert forall t :: t in txs <==> t == txs[0] || t in txs[1..];
    }
  }

  lemma RunOne(c: Crypto, t: Transaction, miner: Address, m: Balances, d: Balances, blockFee: uint64, id: uint32)
    requires id != 1 && SignatureValid(c, t)
    ensures RunAll(c, [t], miner, m, d, blockFee, id).status == UpdateStatus(c, t, m, blockFee, id)
  {
    hide Apply, UpdateStatus, SignatureValid;
    assert [t][1..] == [];
    assert RunAll(c, [], miner, Apply(t, miner, false, m), Apply(t, miner, false, d), blockFee, id).status == SUCCESS;
  }

  /** A block may carry the very same signed transfer twice, and pays it twice, as long as
      the payer can afford it. */
  lemma PaidTwice(c: Crypto, b: Block, m: Balances, known: set<Hash>)
    requires |b.transactions| == 3 && b.id != 1
    requires b.transactions[0].Fee? && b.transactions[1] == b.transactions[2] && b.transactions[1].Transfer?
    requires var t := b.transactions[1];
             && SignatureValid(c, t) && ContentHash(c, t) !in known
             && (b.id > WALLET_SIG_FORK_BLOCK ==> SenderMatches(c, t))
             && t.from != t.to && t.from != b.transactions[0].to && t.from in m && m[t.from] >= 2 * (t.amount + t.fee)
    ensures var t, r := b.transactions[1], Execute(c, b, m, map[], known, b.transactions[0].amount);
            r.status == SUCCESS && Balance(r.ledger, t.from) == m[t.from] - 2 * (t.amount + t.fee)
  {
    hide ContentHash, SignatureValid, RunAll, Net, Credit, Debit;
    var txs, fee, t := b.transactions, b.transactions[0], b.transactions[1];
    assert txs == [fee, t, t];
    assert txs[1..] == [t, t] && [t, t][1..] == [t] && [t][1..] == [];
    assert Scan(c, [t], known, b.id, true) == SUCCESS;
    assert Scan(c, [t, t], known, b.id, true) == SUCCESS;
    assert Fees([]) == 0 && Fees([t]) == 0 && Fees([t, t]) == 0 && Fees(txs) == 1;
    assert FirstFee(txs) == fee;
    PayTwice(c, txs, fee.to, m, b.id);
  }

  lemma PayTwice(c: Crypto, txs: seq<Transaction>, miner: Address, m: Balances, id: uint32)
    requires |txs| == 3 && txs[0].Fee? && txs[0].to == miner && txs[1] == txs[2] && id != 1
    requires var t := txs[1];
             && t.Transfer? && SignatureValid(c, t) && (id > WALLET_SIG_FORK_BLOCK ==> SenderMatches(c, t))
             && t.from != t.to && t.from != miner && t.from in m && m[t.from] >= 2 * (t.amount + t.fee)
    ensures var t, r := txs[1], RunAll(c, txs, miner, m, map[], txs[0].amount, id);
            r.status == SUCCESS && Balance(r.ledger, t.from) == m[t.from] - 2 * (t.amount + t.fee)
  {
    hide SignatureValid, RunAll, Apply;
    var fee, t, blockFee := txs[0], txs[1], txs[0].amount;
    var m1, d1 := Apply(fee, miner, false, m), Apply(fee, miner, false, map[]);
    var m2, d2 := Apply(t, miner, false, m1), Apply(t, miner, false, d1);
    var m3, d3 := Apply(t, miner, false, m2), Apply(t, miner, false, d2);
    Receives(fee, miner, m, t.from);
    Pays(t, miner, m1);
    Pays(t, miner, m2);
    Succeeds(c, txs, miner, m, map[], blockFee, id);
    Succeeds(c, txs[1..], miner, m1, d1, blockFee, id);
    Succeeds(c, txs[1..][1..], miner, m2, d2, blockFee, id);
    NothingLeft(c, txs[1..][1..][1..], miner, m3, d3, blockFee, id);
  }

  lemma Succeeds(c: Crypto, txs: seq<Transaction>, miner: Address, m: Balances, d: Balances, blockFee: uint64,
                 id: uint32)
    requires txs != [] && id != 1 && SignatureValid(c, txs[0]) && UpdateStatus(c, txs[0], m, blockFee, id) == SUCCESS
    ensures RunAll(c, txs, miner, m, d, blockFee, id)
            == RunAll(c, txs[1..], miner, Apply(txs[0], miner, false, m), Apply(txs[0], miner, false, d), blockFee, id)
  {
  }

  lemma NothingLeft(c: Crypto, txs: seq<Transaction>, miner: Address, m: Balances, d: Balances, blockFee: uint64,
                    id: uint32)
    requires txs == []
    ensures RunAll(c, txs, miner, m, d, blockFee, id) == Outcome(SUCCESS, m, d)
  {
  }

  lemma Receives(fee: Transaction, miner: Address, m: Balances, w: Address)
    requires fee.Fee? && w != fee.to && w in m
    ensures w in Apply(fee, miner, false, m) && Apply(fee, miner, false, m)[w] == m[w]
  {
  }

  lemma Pays(t: Transaction, miner: Address, m: Balances)
    requires t.Transfer? && t.from != t.to && t.from != miner && t.from in m && m[t.from] >= t.amount + t.fee
    ensures t.from in Apply(t, miner, false, m)
    ensures Apply(t, miner, false, m)[t.from] == m[t.from] - (t.amount + t.fee)
  {
    ApplyMovesByNet(t, miner, false, m, t.from);
  }
}
