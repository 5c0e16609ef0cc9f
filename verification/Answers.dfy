/** What the program answers for a transaction and for a block, spelled out from what is
    asked of them: every status exactly if the earlier checks pass and its own does not. */
module Answers {
  import opened Words
  import opened Power
  import opened Records
  import opened Ledgers
  import opened Execution
  import opened LeadingZeros
  import opened MerkleSpec
  import opened Supplies
  import opened ChainSpec

  // ----- one transaction -----

  /** Past block 11500 the sender of a transfer must be the wallet of its key. */
  lemma UpdateAnswers(c: Crypto, t: Transaction, m: Balances, blockFee: uint64, id: uint32)
    ensures var r := UpdateStatus(c, t, m, blockFee, id);
            var forged := t.Transfer? && id > 11500 && c.addressOf(t.signingKey) != t.from;
            && (r == WALLET_SIGNATURE_MISMATCH <==> forged)
            && (r == INCORRECT_MINING_FEE <==> t.Fee? && t.amount != blockFee)
            && (r == SENDER_DOES_NOT_EXIST <==> !forged && t.Transfer? && id != 1 && t.from !in m)
            && (r == BALANCE_TOO_LOW <==>
                  !forged && t.Transfer? && id != 1 && t.from in m
                  && m[t.from] < (t.amount + t.fee) % 0x1_0000_0000_0000_0000)
            && (r == SUCCESS <==>
                  || (t.Fee? && t.amount == blockFee)
                  || (t.Transfer? && !forged
                      && (id == 1 || (t.from in m && m[t.from] >= (t.amount + t.fee) % 0x1_0000_0000_0000_0000))))
  {
  }

  /** Everything that is asked of a transaction when its turn comes in block id. */
  predicate Passes(c: Crypto, t: Transaction, m: Balances, blockFee: uint64, id: uint32) {
    if t.Fee? then t.amount == blockFee
    else
      && (id > 11500 ==> c.addressOf(t.signingKey) == t.from)
      && (id != 1 ==>
            && c.signatureOk(ContentHash(c, t), t.signature, t.signingKey)
            && t.from in m && m[t.from] >= (t.amount + t.fee) % 0x1_0000_0000_0000_0000)
  }

  /** The ledger when the turn of transaction k comes. */
  function Before(txs: seq<Transaction>, miner: Address, id: uint32, m: Balances, k: nat): Balances
    requires k <= |txs|
  {
    ApplyAll(txs[..k], miner, id == 1, m)
  }

  predicate PassUpTo(c: Crypto, txs: seq<Transaction>, miner: Address, m: Balances, blockFee: uint64, id: uint32,
                     k: nat)
    requires k <= |txs|
  {
    forall j :: 0 <= j < k ==> Passes(c, txs[j], Before(txs, miner, id, m, j), blockFee, id)
  }

  /** Running transactions succeeds exactly if each passes in its turn; otherwise it stops
      at the first that does not, with its ledger and its status. */
  lemma {:induction false} RunAnswers(c: Crypto, txs: seq<Transaction>, miner: Address, m: Balances, d: Balances,
                                      blockFee: uint64, id: uint32)
    ensures var r := RunAll(c, txs, miner, m, d, blockFee, id);
            && (r.status == SUCCESS <==> PassUpTo(c, txs, miner, m, blockFee, id, |txs|))
            && (r.status == SUCCESS ==> r.ledger == Before(txs, miner, id, m, |txs|))
            && (r.status != SUCCESS ==>
                  exists k :: 0 <= k < |txs| && StopsAt(c, txs, miner, m, blockFee, id, k, r))
  {
    if txs == [] {
    } else {
      hide Apply, SignatureValid, UpdateStatus, Passes;
      var t, m1, d1 := txs[0], Apply(txs[0], miner, id == 1, m), Apply(txs[0], miner, id == 1, d);
      assert txs[..0] == [] && txs[..|txs|] == txs;
      FirstAnswers(c, t, m, blockFee, id);
      if Passes(c, t, m, blockFee, id) {
        RunAnswers(c, txs[1..], miner, m1, d1, blockFee, id);
        TailAnswers(c, txs, miner, m, blockFee, id, RunAll(c, txs, miner, m, d, blockFee, id));
      } else {
        assert StopsAt(c, txs, miner, m, blockFee, id, 0, RunAll(c, txs, miner, m, d, blockFee, id));
      }
    }
  }

  ghost predicate StopsAt(c: Crypto, txs: seq<Transaction>, miner: Address, m: Balances, blockFee: uint64, id: uint32,
                          k: nat, r: Outcome)
    requires k < |txs|
  {
    && PassUpTo(c, txs, miner, m, blockFee, id, k)
    && var t, before := txs[k], Before(txs, miner, id, m, k);
       && !Passes(c, t, before, blockFee, id) && r.ledger == before
       && r.status == if t.Transfer? && id != 1 && !c.signatureOk(ContentHash(c, t), t.signature, t.signingKey)
                      then INVALID_SIGNATURE
                      else UpdateStatus(c, t, before, blockFee, id)
  }

  lemma FirstAnswers(c: Crypto, t: Transaction, m: Balances, blockFee: uint64, id: uint32)
    ensures Passes(c, t, m, blockFee, id)
            <==> (SignatureValid(c, t) || id == 1) && UpdateStatus(c, t, m, blockFee, id) == SUCCESS
    ensures !SignatureValid(c, t) && id != 1
            <==> t.Transfer? && id != 1 && !c.signatureOk(ContentHash(c, t), t.signature, t.signingKey)
  {
    hide ContentHash;
  }

  lemma BeforeTail(txs: seq<Transaction>, miner: Address, id: uint32, m: Balances, k: nat)
    requires k < |txs|
    ensures Before(txs, miner, id, m, k + 1)
            == Before(txs[1..], miner, id, Apply(txs[0], miner, id == 1, m), k)
  {
    hide Apply;
    assert txs[..k + 1][0] == txs[0] && txs[..k + 1][1..] == txs[1..][..k];
  }

  /** What the rest of the transactions do is what all do from the second on. */
  lemma TailAnswers(c: Crypto, txs: seq<Transaction>, miner: Address, m: Balances, blockFee: uint64, id: uint32,
                    r: Outcome)
    requires txs != [] && Passes(c, txs[0], m, blockFee, id)
    ensures var rest, m1 := txs[1..], Apply(txs[0], miner, id == 1, m);
            && (PassUpTo(c, txs, miner, m, blockFee, id, |txs|)
                <==> PassUpTo(c, rest, miner, m1, blockFee, id, |rest|))
            && Before(txs, miner, id, m, |txs|) == Before(rest, miner, id, m1, |rest|)
            && ((exists k :: 0 <= k < |rest| && StopsAt(c, rest, miner, m1, blockFee, id, k, r))
                ==> exists k :: 0 <= k < |txs| && StopsAt(c, txs, miner, m, blockFee, id, k, r))
  {
    hide Passes, Before, Apply, StopsAt;
    var rest, m1 := txs[1..], Apply(txs[0], miner, id == 1, m);
    BeforeFirst(txs, miner, id, m);
    BeforeTail(txs, miner, id, m, |rest|);
    PassTail(c, txs, miner, m, blockFee, id, |rest|);
    if k :| 0 <= k < |rest| && StopsAt(c, rest, miner, m1, blockFee, id, k, r) {
      StopsTail(c, txs, miner, m, blockFee, id, k, r);
    }
  }

  lemma BeforeFirst(txs: seq<Transaction>, miner: Address, id: uint32, m: Balances)
    ensures Before(txs, miner, id, m, 0) == m
  {
    assert txs[..0] == [];
  }

  lemma PassTail(c: Crypto, txs: seq<Transaction>, miner: Address, m: Balances, blockFee: uint64, id: uint32, k: nat)
    requires k < |txs| && Passes(c, txs[0], m, blockFee, id)
    ensures PassUpTo(c, txs, miner, m, blockFee, id, k + 1)
            <==> PassUpTo(c, txs[1..], miner, Apply(txs[0], miner, id == 1, m), blockFee, id, k)
  {
    hide Passes, Before, Apply;
    var rest, m1 := txs[1..], Apply(txs[0], miner, id == 1, m);
    BeforeFirst(txs, miner, id, m);
    forall j | 0 <= j < k
      ensures Before(txs, miner, id, m, j + 1) == Before(rest, miner, id, m1, j)
    {
      BeforeTail(txs, miner, id, m, j);
    }
    if PassUpTo(c, rest, miner, m1, blockFee, id, k) {
      forall j | 0 <= j < k + 1
        ensures Passes(c, txs[j], Before(txs, miner, id, m, j), blockFee, id)
      {
        if j > 0 {
          assert Passes(c, rest[j - 1], Before(rest, miner, id, m1, j - 1), blockFee, id);
        }
      }
    }
    if PassUpTo(c, txs, miner, m, blockFee, id, k + 1) {
      forall j | 0 <= j < k
        ensures Passes(c, rest[j], Before(rest, miner, id, m1, j), blockFee, id)
      {
        assert Passes(c, txs[j + 1], Before(txs, miner, id, m, j + 1), blockFee, id);
      }
    }
  }

  lemma StopsTail(c: Crypto, txs: seq<Transaction>, miner: Address, m: Balances, blockFee: uint64, id: uint32,
                  k: nat, r: Outcome)
    requires k < |txs| - 1 && Passes(c, txs[0], m, blockFee, id)
    requires StopsAt(c, txs[1..], miner, Apply(txs[0], miner, id == 1, m), blockFee, id, k, r)
    ensures StopsAt(c, txs, miner, m, blockFee, id, k + 1, r)
  {
    hide Passes, Before, Apply, PassUpTo, UpdateStatus, ContentHash;
    BeforeTail(txs, miner, id, m, k);
    PassTail(c, txs, miner, m, blockFee, id, k);
  }

  // ----- a block -----

  /** Nothing is wrong with transaction k before any balance is looked at. */
  predicate Clean(c: Crypto, txs: seq<Transaction>, known: set<Hash>, id: uint32, fee: bool, k: nat)
    requires k < |txs|
  {
    var t := txs[k];
    if t.Fee? then !fee && forall j :: 0 <= j < k ==> !txs[j].Fee?
    else
      && (id != 1 ==> ContentHash(c, t) !in known)
      && (id > 11500 ==> c.addressOf(t.signingKey) == t.from)
  }

  predicate CleanUpTo(c: Crypto, txs: seq<Transaction>, known: set<Hash>, id: uint32, fee: bool, k: nat)
    requires k <= |txs|
  {
    forall j :: 0 <= j < k ==> Clean(c, txs, known, id, fee, j)
  }

  /** The first pass ends at the first transaction with which something is wrong, and says
      what: a second fee, a transfer that is known, or a forged sender, in this order. */
  ghost predicate ScanStopsAt(c: Crypto, txs: seq<Transaction>, known: set<Hash>, id: uint32, fee: bool, k: nat,
                              r: Status)
    requires k < |txs|
  {
    && CleanUpTo(c, txs, known, id, fee, k) && !Clean(c, txs, known, id, fee, k)
    && r == if txs[k].Fee? then EXTRA_MINING_FEE
            else if id != 1 && ContentHash(c, txs[k]) in known then EXPIRED_TRANSACTION
            else WALLET_SIGNATURE_MISMATCH
  }

  lemma {:induction false} ScanAnswers(c: Crypto, txs: seq<Transaction>, known: set<Hash>, id: uint32, fee: bool)
    ensures var r := Scan(c, txs, known, id, fee);
            && (r == SUCCESS <==>
                  CleanUpTo(c, txs, known, id, fee, |txs|) && (fee || exists k :: 0 <= k < |txs| && txs[k].Fee?))
            && (r == NO_MINING_FEE <==>
                  CleanUpTo(c, txs, known, id, fee, |txs|) && !fee && forall k :: 0 <= k < |txs| ==> !txs[k].Fee?)
            && (r != SUCCESS && r != NO_MINING_FEE ==>
                  exists k :: 0 <= k < |txs| && ScanStopsAt(c, txs, known, id, fee, k, r))
  {
    if txs == [] {
    } else {
      hide ContentHash;
      var r := Scan(c, txs, known, id, fee);
      if Clean(c, txs, known, id, fee, 0) {
        ScanAnswers(c, txs[1..], known, id, fee || txs[0].Fee?);
        CleanTail(c, txs, known, id, fee, |txs| - 1);
        hide CleanUpTo, Clean, ScanStopsAt;
        var found := fee || txs[0].Fee?;
        if k :| 0 <= k < |txs| - 1 && ScanStopsAt(c, txs[1..], known, id, found, k, r) {
          ScanStopsTail(c, txs, known, id, fee, k, r);
        }
      } else {
        assert ScanStopsAt(c, txs, known, id, fee, 0, r);
      }
    }
  }

  lemma CleanAtTail(c: Crypto, txs: seq<Transaction>, known: set<Hash>, id: uint32, fee: bool, k: nat)
    requires k < |txs| - 1
    ensures Clean(c, txs, known, id, fee, k + 1) <==> Clean(c, txs[1..], known, id, fee || txs[0].Fee?, k)
  {
    hide ContentHash;
    assert forall j :: 0 <= j < k ==> txs[1..][j] == txs[j + 1];
    if forall j :: 0 <= j < k ==> !txs[1..][j].Fee? {
      forall j | 0 < j < k + 1
        ensures !txs[j].Fee?
      {
        assert txs[1..][j - 1] == txs[j];
      }
    }
  }

  lemma CleanTail(c: Crypto, txs: seq<Transaction>, known: set<Hash>, id: uint32, fee: bool, k: nat)
    requires k < |txs| && Clean(c, txs, known, id, fee, 0)
    ensures CleanUpTo(c, txs, known, id, fee, k + 1) <==> CleanUpTo(c, txs[1..], known, id, fee || txs[0].Fee?, k)
  {
    hide Clean;
    var rest, found := txs[1..], fee || txs[0].Fee?;
    forall j | 0 <= j < k
      ensures Clean(c, txs, known, id, fee, j + 1) <==> Clean(c, rest, known, id, found, j)
    {
      CleanAtTail(c, txs, known, id, fee, j);
    }
    if CleanUpTo(c, rest, known, id, found, k) {
      forall j | 0 <= j < k + 1
        ensures Clean(c, txs, known, id, fee, j)
      {
        assert j > 0 ==> Clean(c, rest, known, id, found, j - 1);
      }
    }
    if CleanUpTo(c, txs, known, id, fee, k + 1) {
      forall j | 0 <= j < k
        ensures Clean(c, rest, known, id, found, j)
      {
        assert Clean(c, txs, known, id, fee, j + 1);
      }
    }
  }

  lemma ScanStopsTail(c: Crypto, txs: seq<Transaction>, known: set<Hash>, id: uint32, fee: bool, k: nat, r: Status)
    requires k < |txs| - 1 && Clean(c, txs, known, id, fee, 0)
    requires ScanStopsAt(c, txs[1..], known, id, fee || txs[0].Fee?, k, r)
    ensures ScanStopsAt(c, txs, known, id, fee, k + 1, r)
  {
    hide ContentHash, Clean, CleanUpTo;
    CleanTail(c, txs, known, id, fee, k);
    CleanAtTail(c, txs, known, id, fee, k);
  }

  // ----- executing a block -----

  lemma {:induction false} OnlyFee(txs: seq<Transaction>, k: nat)
    requires k < |txs| && txs[k].Fee? && forall j :: 0 <= j < k ==> !txs[j].Fee?
    ensures Fees(txs) > 0 && FirstFee(txs) == txs[k]
  {
    if k == 0 {
    } else {
      assert txs[1..][k - 1] == txs[k];
      OnlyFee(txs[1..], k - 1);
    }
  }

  /** The block has a fee transaction that pays as much, and every transaction passes. */
  ghost predicate BlockPasses(c: Crypto, b: Block, m: Balances, known: set<Hash>, blockFee: uint64) {
    var txs := b.transactions;
    && CleanUpTo(c, txs, known, b.id, false, |txs|)
    && exists k :: 0 <= k < |txs| && PaidBy(c, b, m, blockFee, k)
  }

  ghost predicate PaidBy(c: Crypto, b: Block, m: Balances, blockFee: uint64, k: nat)
    requires k < |b.transactions|
  {
    var txs := b.transactions;
    && txs[k].Fee? && txs[k].amount == blockFee
    && PassUpTo(c, txs, txs[k].to, m, blockFee, b.id, |txs|)
  }

  /** An execution that fails: in the first pass, without touching the ledger; for want of
      a fee or of the right one; or where a transaction does not pass in its turn. */
  ghost predicate Fails(c: Crypto, b: Block, m: Balances, known: set<Hash>, blockFee: uint64, r: Outcome) {
    var txs, id := b.transactions, b.id;
    || (r.ledger == m && exists k :: 0 <= k < |txs| && ScanStopsAt(c, txs, known, id, false, k, r.status))
    || (CleanUpTo(c, txs, known, id, false, |txs|)
        && (|| (r.ledger == m && r.status == NO_MINING_FEE && forall k :: 0 <= k < |txs| ==> !txs[k].Fee?)
            || exists k :: 0 <= k < |txs| && FailsBehindFee(c, b, m, blockFee, k, r)))
  }

  ghost predicate FailsBehindFee(c: Crypto, b: Block, m: Balances, blockFee: uint64, k: nat, r: Outcome)
    requires k < |b.transactions|
  {
    var txs := b.transactions;
    && txs[k].Fee?
    && if txs[k].amount != blockFee then r.ledger == m && r.status == INCORRECT_MINING_FEE
       else exists j :: 0 <= j < |txs| && StopsAt(c, txs, txs[k].to, m, blockFee, b.id, j, r)
  }

  lemma ExecuteAnswers(c: Crypto, b: Block, m: Balances, known: set<Hash>, blockFee: uint64)
    ensures var r := Execute(c, b, m, map[], known, blockFee);
            && (r.status == SUCCESS <==> BlockPasses(c, b, m, known, blockFee))
            && (r.status != SUCCESS ==> Fails(c, b, m, known, blockFee, r))
            && (forall k :: 0 <= k < |b.transactions| && b.transactions[k].Fee? && r.status == SUCCESS ==>
                  r.ledger == Before(b.transactions, b.transactions[k].to, b.id, m, |b.transactions|))
  {
    hide Clean, Passes, Scan, RunAll, Before, Fees, PassUpTo, CleanUpTo, ScanStopsAt, StopsAt;
    var txs, id := b.transactions, b.id;
    ScanAnswers(c, txs, known, id, false);
    if Scan(c, txs, known, id, false) == SUCCESS {
      var k :| 0 <= k < |txs| && txs[k].Fee?;
      FeeWhenClean(c, txs, known, id, k);
      BehindFee(c, b, m, known, blockFee, k);
    }
  }

  lemma BehindFee(c: Crypto, b: Block, m: Balances, known: set<Hash>, blockFee: uint64, k: nat)
    requires k < |b.transactions| && b.transactions[k].Fee?
    requires Scan(c, b.transactions, known, b.id, false) == SUCCESS
    requires Miner(b.transactions) == b.transactions[k].to && FeeAmount(b.transactions) == b.transactions[k].amount
    ensures var r := Execute(c, b, m, map[], known, blockFee);
            && (r.status == SUCCESS <==> PaidBy(c, b, m, blockFee, k))
            && (r.status != SUCCESS ==> FailsBehindFee(c, b, m, blockFee, k, r))
            && (r.status == SUCCESS ==>
                  r.ledger == Before(b.transactions, b.transactions[k].to, b.id, m, |b.transactions|))
  {
    hide Passes, Scan, RunAll, Before, PassUpTo, StopsAt;
    RunAnswers(c, b.transactions, b.transactions[k].to, m, map[], blockFee, b.id);
  }

  lemma FeeWhenClean(c: Crypto, txs: seq<Transaction>, known: set<Hash>, id: uint32, k: nat)
    requires k < |txs| && txs[k].Fee? && CleanUpTo(c, txs, known, id, false, |txs|)
    ensures Miner(txs) == txs[k].to && FeeAmount(txs) == txs[k].amount
    ensures forall j :: 0 <= j < |txs| && txs[j].Fee? ==> j == k
  {
    hide ContentHash;
    assert Clean(c, txs, known, id, false, k);
    forall j | 0 <= j < |txs| && txs[j].Fee?
      ensures j == k
    {
      assert Clean(c, txs, known, id, false, j);
    }
    OnlyFee(txs, k);
  }

  // ----- the checks of a block against the chain -----

  /** x is the mean, with 64-bit wrap, of the two middle ones of the last ten timestamps. */
  ghost predicate IsMedian(s: seq<Block>, x: uint64)
    requires |s| >= 10
  {
    exists r: seq<uint64> :: IsMiddle(s, r, x)
  }

  ghost predicate IsMiddle(s: seq<Block>, r: seq<uint64>, x: uint64)
    requires |s| >= 10
  {
    && |r| == 10 && (forall i, j :: 0 <= i < j < 10 ==> r[i] <= r[j])
    && multiset(r) == multiset(seq<uint64>(10, i requires 0 <= i < 10 => s[|s| - 10 + i].timestamp))
    && var y: int, z: int := r[4], r[5]; x == (y + z) % 0x1_0000_0000_0000_0000 / 2
  }

  lemma {:induction false} LastTimesAt(s: seq<Block>, n: nat, i: nat)
    requires i < n <= |s|
    ensures LastTimes(s, n)[i] == s[|s| - 1 - i].timestamp
  {
    if i == n - 1 {
    } else {
      LastTimesAt(s, n - 1, i);
    }
  }

  lemma {:induction false} MultisetReversed(a: seq<uint64>, b: seq<uint64>)
    requires |a| == |b| && forall i :: 0 <= i < |a| ==> a[i] == b[|a| - 1 - i]
    ensures multiset(a) == multiset(b)
  {
    if a == [] {
    } else {
      assert a == [a[0]] + a[1..] && b == b[..|b| - 1] + [b[|b| - 1]];
      MultisetReversed(a[1..], b[..|b| - 1]);
    }
  }

  lemma MedianIs(s: seq<Block>)
    requires |s| >= 10
    ensures IsMedian(s, MedianTime(s))
  {
    var ts := LastTimes(s, 10);
    var times := seq<uint64>(10, i requires 0 <= i < 10 => s[|s| - 10 + i].timestamp);
    forall i | 0 <= i < 10
      ensures ts[i] == times[10 - 1 - i]
    {
      LastTimesAt(s, 10, i);
    }
    MultisetReversed(ts, times);
    SortTimesAscends(ts);
    hide LastTimes, SortTimes;
    assert IsMiddle(s, SortTimes(ts), MedianTime(s));
  }

  lemma LeastFirst(a: seq<uint64>)
    requires a != [] && Ascending(a)
    ensures Ascending(a[1..]) && forall x <- multiset(a) :: a[0] <= x
    ensures multiset(a[1..]) == multiset(a) - multiset([a[0]])
  {
    assert a == [a[0]] + a[1..];
  }

  lemma SameHead(a: seq<uint64>, b: seq<uint64>)
    requires Ascending(a) && Ascending(b) && multiset(a) == multiset(b) && a != [] && b != []
    ensures a[0] == b[0] && multiset(a[1..]) == multiset(b[1..])
  {
    hide Ascending;
    LeastFirst(a);
    LeastFirst(b);
    assert a[0] in multiset(a) && b[0] in multiset(b);
  }

  lemma SameSize(a: seq<uint64>, b: seq<uint64>)
    requires multiset(a) == multiset(b)
    ensures |a| == |b|
  {
    assert |a| == |multiset(a)| == |multiset(b)| == |b|;
  }

  lemma {:induction false} AscendingUnique(a: seq<uint64>, b: seq<uint64>)
    requires |a| == |b| && Ascending(a) && Ascending(b) && multiset(a) == multiset(b)
    ensures a == b
  {
    if a == [] {
    } else {
      SameHead(a, b);
      LeastFirst(a);
      LeastFirst(b);
      hide Ascending;
      AscendingUnique(a[1..], b[1..]);
    }
  }

  /** There is only one median. */
  lemma MedianUnique(s: seq<Block>, x: uint64, y: uint64)
    requires |s| >= 10 && IsMedian(s, x) && IsMedian(s, y)
    ensures x == y
  {
    var q :| IsMiddle(s, q, x);
    var r :| IsMiddle(s, r, y);
    SameSize(q, r);
    AscendingUnique(q, r);
  }

  /** The statuses that executing a block can end in. */
  predicate OfExecution(r: Status) {
    r in {SUCCESS, EXTRA_MINING_FEE, EXPIRED_TRANSACTION, WALLET_SIGNATURE_MISMATCH, NO_MINING_FEE,
          INCORRECT_MINING_FEE, INVALID_SIGNATURE, SENDER_DOES_NOT_EXIST, BALANCE_TOO_LOW}
  }

  /** The status r answers block b exactly as the checks demand, one after the other. */
  ghost predicate Answered(c: Crypto, b: Block, s: seq<Block>, d: int, networkTime: uint64, r: Status) {
    var count := |b.transactions| <= 25000;
    var id := count && b.id == |s| + 1;
    var level := id && b.difficulty % 256 == d;
    var proof := level
      && (b.lastBlockHash == NULL_HASH
          || FromBigEndian(c.proofHash(b.GetHash(c), b.nonce)) < Pow(2, 256 - b.difficulty % 256));
    var link := proof && b.lastBlockHash == if s == [] then NULL_HASH else s[|s| - 1].GetHash(c);
    var early := link && (b.id == 1 || b.timestamp <= (networkTime + 7200) % 0x1_0000_0000_0000_0000);
    var recent := early && (b.id == 1 || |s| <= 10 || exists x: uint64 :: IsMedian(s, x) && b.timestamp >= x);
    && (r == INVALID_TRANSACTION_COUNT <==> !count)
    && (r == INVALID_BLOCK_ID <==> count && !id)
    && (r == INVALID_DIFFICULTY <==> id && !level)
    && (r == INVALID_NONCE <==> level && !proof)
    && (r == INVALID_LASTBLOCK_HASH <==> proof && !link)
    && (r == BLOCK_TIMESTAMP_IN_FUTURE <==> link && !early)
    && (r == BLOCK_TIMESTAMP_TOO_OLD <==> early && !recent)
    && (r == UNDEFINED <==> recent && b.transactions == [])
    && (r == INVALID_MERKLE_ROOT <==>
          recent && b.transactions != [] && b.merkleRoot != RootTree(c, b.transactions).hash)
    && (OfExecution(r) <==>
          recent && b.transactions != [] && b.merkleRoot == RootTree(c, b.transactions).hash)
  }

  /** A hash has enough leading zeros exactly if it is below the bound of the difficulty. */
  lemma NonceIsWork(c: Crypto, b: Block)
    ensures NonceValid(c, b)
            <==> || b.lastBlockHash == NULL_HASH
                 || FromBigEndian(c.proofHash(b.GetHash(c), b.nonce)) < Pow(2, 256 - b.difficulty % 256)
  {
    hide Pow, FromBigEndian, Block.GetHash;
    ZerosIsMagnitude(c.proofHash(b.GetHash(c), b.nonce), b.Difficulty());
  }

  lemma NotTooOld(s: seq<Block>, t: uint64)
    requires |s| >= 10
    ensures t >= MedianTime(s) <==> exists x: uint64 :: IsMedian(s, x) && t >= x
  {
    hide IsMedian, MedianTime;
    MedianIs(s);
    if x: uint64 :| IsMedian(s, x) && t >= x {
      MedianUnique(s, x, MedianTime(s));
    }
  }

  lemma ExecuteStatus(c: Crypto, b: Block, m: Balances, known: set<Hash>, blockFee: uint64)
    ensures OfExecution(Execute(c, b, m, map[], known, blockFee).status)
  {
    hide CleanUpTo, Clean, Passes, Execute, PassUpTo, ContentHash;
    ExecuteAnswers(c, b, m, known, blockFee);
  }

  /** What adding a block answers is what the checks demand, whatever the ledger. */
  lemma VerdictAnswered(c: Crypto, b: Block, s: seq<Block>, m: Balances, index: set<Hash>, d: int, networkTime: uint64)
    ensures Answered(c, b, s, d, networkTime, Verdict(c, b, s, m, index, d, networkTime))
  {
    hide NonceValid, MedianTime, IsMedian, RootTree, Execute, Sorted, Pow, FromBigEndian, Block.GetHash;
    NonceIsWork(c, b);
    if |s| > 10 {
      NotTooOld(s, b.timestamp);
    }
    ExecuteStatus(c, Sorted(c, b), m, index, MiningFee(|s|));
  }

  /** A block is accepted exactly if it gets as far as its execution and passes there, in
      the order of its hashes and for the reward that is due. */
  lemma VerdictAccepts(c: Crypto, b: Block, s: seq<Block>, m: Balances, index: set<Hash>, d: int, networkTime: uint64)
    ensures var r := Verdict(c, b, s, m, index, d, networkTime);
            r == SUCCESS <==> OfExecution(r) && BlockPasses(c, Sorted(c, b), m, index, MiningFee(|s|))
  {
    hide Execute, BlockPasses, Fails, Before, NonceValid, MedianTime, RootTree, Sorted;
    ExecuteAnswers(c, Sorted(c, b), m, index, MiningFee(|s|));
  }

  // ----- a transaction on its own -----

  /** The verdict on one transaction that is not in a block. */
  function SoloVerdict(c: Crypto, t: Transaction, m: Balances, known: set<Hash>): Status {
    if t.Fee? then EXTRA_MINING_FEE
    else if !SignatureValid(c, t) then INVALID_SIGNATURE
    else if ContentHash(c, t) in known then EXPIRED_TRANSACTION
    else if !SenderMatches(c, t) then WALLET_SIGNATURE_MISMATCH
    else UpdateStatus(c, t, m, 0, 0)
  }

  /** Some block has a transfer with this content hash. */
  ghost predicate OnChain(c: Crypto, s: seq<Block>, h: Hash) {
    exists i :: 0 <= i < |s| && InBlock(c, s[i], h)
  }

  ghost predicate InBlock(c: Crypto, b: Block, h: Hash) {
    exists t :: t in b.transactions && t.Transfer? && ContentHash(c, t) == h
  }

  lemma {:induction false} IndexedOnChain(c: Crypto, s: seq<Block>, h: Hash)
    ensures h in IndexOf(c, s) <==> OnChain(c, s, h)
  {
    if s == [] {
    } else {
      hide InBlock;
      IndexedOnChain(c, Init(s), h);
      assert forall i :: 0 <= i < |s| - 1 ==> Init(s)[i] == s[i];
      InBlockHash(c, Last(s), h);
    }
  }

  lemma InBlockHash(c: Crypto, b: Block, h: Hash)
    ensures h in TransferHashes(c, b.transactions) <==> InBlock(c, b, h)
  {
    hide ContentHash;
  }

  /** The status r answers transaction t on its own, on the blocks s and the ledger m. */
  ghost predicate SoloAnswered(c: Crypto, t: Transaction, s: seq<Block>, m: Balances, r: Status) {
    if t.Fee? then r == EXTRA_MINING_FEE
    else
      var signed := c.signatureOk(ContentHash(c, t), t.signature, t.signingKey);
      var unknown := signed && !OnChain(c, s, ContentHash(c, t));
      var own := unknown && c.addressOf(t.signingKey) == t.from;
      && (r == INVALID_SIGNATURE <==> !signed)
      && (r == EXPIRED_TRANSACTION <==> signed && OnChain(c, s, ContentHash(c, t)))
      && (r == WALLET_SIGNATURE_MISMATCH <==> unknown && !own)
      && (r == SENDER_DOES_NOT_EXIST <==> own && t.from !in m)
      && (r == BALANCE_TOO_LOW <==> own && t.from in m && m[t.from] < (t.amount + t.fee) % 0x1_0000_0000_0000_0000)
      && (r == SUCCESS <==> own && t.from in m && m[t.from] >= (t.amount + t.fee) % 0x1_0000_0000_0000_0000)
  }

  lemma SoloAnswers(c: Crypto, t: Transaction, s: seq<Block>, m: Balances)
    ensures SoloAnswered(c, t, s, m, SoloVerdict(c, t, m, IndexOf(c, s).Keys))
  {
    hide ContentHash, IndexOf, OnChain;
    IndexedOnChain(c, s, ContentHash(c, t));
  }

  // ----- what has been checked of every surviving block -----

  /** Block i of a chain: its number, link, size, root, proof of work, time and fee. */
  ghost predicate Vetted(c: Crypto, s: seq<Block>, i: nat)
    requires i < |s|
  {
    var b := s[i];
    && b.id == i + 1 && b.lastBlockHash == (if i == 0 then NULL_HASH else s[i - 1].GetHash(c))
    && 1 <= |b.transactions| <= 25000 && b.merkleRoot == RootTree(c, b.transactions).hash
    && (b.lastBlockHash == NULL_HASH
        || FromBigEndian(c.proofHash(b.GetHash(c), b.nonce)) < Pow(2, 256 - b.difficulty % 256))
    && (i > 10 ==> exists x: uint64 :: IsMedian(s[..i], x) && b.timestamp >= x)
    && exists k :: 0 <= k < |b.transactions| && OneFee(b, k, i)
  }

  /** Transaction k is the only fee, and pays the reward after i blocks. */
  predicate OneFee(b: Block, k: nat, i: nat)
    requires k < |b.transactions|
  {
    && b.transactions[k].Fee? && b.transactions[k].amount == MiningFee(i)
    && forall j :: 0 <= j < |b.transactions| && j != k ==> b.transactions[j].Transfer?
  }

  lemma {:induction false} FeeFound(txs: seq<Transaction>) returns (k: nat)
    requires Fees(txs) == 1
    ensures k < |txs| && txs[k].Fee? && FirstFee(txs) == txs[k]
    ensures forall j :: 0 <= j < |txs| && j != k ==> txs[j].Transfer?
  {
    if txs[0].Fee? {
      k := 0;
      NoFees(txs[1..]);
    } else {
      k := FeeFound(txs[1..]);
      k := k + 1;
    }
    assert forall j :: 0 < j < |txs| ==> txs[j] == txs[1..][j - 1];
  }

  lemma {:induction false} NoFees(txs: seq<Transaction>)
    requires Fees(txs) == 0
    ensures forall j :: 0 <= j < |txs| ==> txs[j].Transfer?
  {
    if txs == [] {
    } else {
      NoFees(txs[1..]);
      assert forall j :: 0 < j < |txs| ==> txs[j] == txs[1..][j - 1];
    }
  }

  lemma VettedAt(c: Crypto, s: seq<Block>, i: nat)
    requires ChainLinked(c, s) && Checked(c, s) && FeesPaid(s) && i < |s|
    ensures Vetted(c, s, i)
  {
    hide ChainLinked, FeesPaid, NonceValid, MedianTime, IsMedian, RootTree, Sorted, Pow, FromBigEndian, Block.GetHash;
    hide Checked, Fees;
    LinkedAt(c, s, i);
    CheckedAt(c, s, i);
    FeePaidAt(s, i);
    NonceIsWork(c, s[i]);
    if i > 10 {
      NotTooOld(s[..i], s[i].timestamp);
    }
    var k := FeeFound(s[i].transactions);
    assert OneFee(s[i], k, i);
  }

  lemma AllVetted(c: Crypto, s: seq<Block>)
    requires ChainLinked(c, s) && Checked(c, s) && FeesPaid(s)
    ensures forall i :: 0 <= i < |s| ==> Vetted(c, s, i)
  {
    hide Vetted, ChainLinked, Checked, FeesPaid;
    forall i | 0 <= i < |s|
      ensures Vetted(c, s, i)
    {
      VettedAt(c, s, i);
    }
  }
}
