/** What other nodes make of the surviving blocks: executing them again from nothing,
    and adding them one by one to a fresh chain. */
module ChainReplays {
  import opened Words
  import opened Records
  import opened Ledgers
  import opened BlockStores
  import opened Execution
  import opened Difficulties
  import opened MerkleSpec
  import opened ChainSpec

  /** The ledger of a node that executes just these blocks from nothing, if it can. */
  ghost function Replay(c: Crypto, s: seq<Block>): (r: Option<Balances>)
  {
    if s == [] then Some(map[])
    else
      var m := Replay(c, Init(s));
      if m.None? || !Executes(c, s, m.value) then None
      else Some(Execute(c, Last(s), m.value, map[], IndexOf(c, Init(s)).Keys, MiningFee(|s| - 1)).ledger)
  }

  /** The wallets that executing just these blocks creates. */
  function NamedIn(s: seq<Block>): set<Address> {
    if s == [] then {} else NamedIn(Init(s)) + NamedBy(Last(s))
  }

  function NamedBy(b: Block): set<Address> {
    NamedAll(b.transactions, Miner(b.transactions), b.id == 1)
  }

  /** Every transfer of nothing past genesis has a sender that was named before it, in
      an earlier block or earlier in its own. */
  predicate Replayable(s: seq<Block>) {
    s != [] ==>
      && Replayable(Init(s))
      && SendersNamed(Last(s).transactions, Miner(Last(s).transactions), Last(s).id == 1, NamedIn(Init(s)))
  }

  /** The surviving blocks execute again from nothing exactly if they are replayable,
      and whenever they do, they give the same balances. */
  lemma {:induction false} ReplayAgrees(c: Crypto, s: seq<Block>)
    requires Executed(c, s)
    ensures Replay(c, s).Some? <==> Replayable(s)
    ensures Replay(c, s).Some? ==> LedgerAgrees(Replay(c, s).value, s) && Replay(c, s).value.Keys == NamedIn(s)
  {
    if s == [] {
      EmptyLedgerAgrees();
    } else {
      hide LedgerAgrees, Executes, Execute;
      ReplayAgrees(c, Init(s));
      if Replay(c, Init(s)).Some? {
        var m0: Balances :| LedgerAgrees(m0, Init(s)) && Executes(c, s, m0);
        ReplayOne(c, s, m0, Replay(c, Init(s)).value);
      }
    }
  }

  lemma ReplayOne(c: Crypto, s: seq<Block>, m: Balances, m': Balances)
    requires s != [] && LedgerAgrees(m, Init(s)) && LedgerAgrees(m', Init(s)) && Executes(c, s, m)
    ensures Executes(c, s, m')
            <==> SendersNamed(Last(s).transactions, Miner(Last(s).transactions), Last(s).id == 1, m'.Keys)
    ensures var m1 := Execute(c, Last(s), m', map[], IndexOf(c, Init(s)).Keys, MiningFee(|s| - 1)).ledger;
            Executes(c, s, m') ==> LedgerAgrees(m1, s) && m1.Keys == m'.Keys + NamedBy(Last(s))
  {
    hide LedgerAgrees, Execute, IndexOf, MiningFee, NamedBy;
    var b, known, fee := Last(s), IndexOf(c, Init(s)).Keys, MiningFee(|s| - 1);
    SameBlocksSameBalances(m, m', Init(s));
    ExecuteElsewhere(c, b, m, m', known, fee);
    if Executes(c, s, m') {
      ExecuteSucceeds(c, b, m', known, fee);
      ExecuteNames(c, b, m', known, fee);
      LedgerExtends(m', Execute(c, b, m', map[], known, fee).ledger, Init(s), b);
      assert Init(s) + [b] == s;
    }
  }

  lemma EmptyLedgerAgrees()
    ensures LedgerAgrees(map[], [])
  {
  }

  lemma ExecuteElsewhere(c: Crypto, b: Block, m: Balances, m': Balances, known: set<Hash>, blockFee: uint64)
    requires Execute(c, b, m, map[], known, blockFee).status == SUCCESS
    requires forall w: Address :: Balance(m, w) == Balance(m', w)
    ensures Execute(c, b, m', map[], known, blockFee).status == SUCCESS
            <==> SendersNamed(b.transactions, Miner(b.transactions), b.id == 1, m'.Keys)
  {
    hide RunAll, Scan, Miner, FeeAmount, SendersNamed;
    RunElsewhere(c, b.transactions, Miner(b.transactions), m, m', map[], map[], blockFee, b.id);
  }

  lemma ExecuteNames(c: Crypto, b: Block, m: Balances, known: set<Hash>, blockFee: uint64)
    requires Execute(c, b, m, map[], known, blockFee).status == SUCCESS
    ensures Execute(c, b, m, map[], known, blockFee).ledger.Keys == m.Keys + NamedBy(b)
  {
    hide RunAll, Scan, Miner, FeeAmount, NamedAll;
    RunNames(c, b.transactions, Miner(b.transactions), m, map[], blockFee, b.id);
  }

  // ----- adding the blocks to a fresh chain -----

  /** The difficulty asked of the next block where no pop and no restart has lost a retarget. */
  function Asked(s: seq<Block>): int {
    if s == [] then MIN_DIFFICULTY
    else if RetargetHeight(|s|) then Retarget(Last(s).Difficulty(), Elapsed(s))
    else Last(s).Difficulty()
  }

  /** Every block has the difficulty that was due, after each retarget the new one. */
  ghost predicate OnTrack(s: seq<Block>) {
    s != [] ==> OnTrack(Init(s)) && Last(s).Difficulty() == Asked(Init(s))
  }

  /** The block does not lie two hours ahead of the network's time. */
  predicate OnTime(b: Block, networkTime: uint64) {
    b.id != 1 ==> b.timestamp <= Add64(networkTime, 120 * 60)
  }

  predicate AllOnTime(s: seq<Block>, times: seq<uint64>)
    requires |times| == |s|
  {
    forall i :: 0 <= i < |s| ==> OnTime(s[i], times[i])
  }

  datatype Rebuilt = Rebuilt(ledger: Balances, difficulty: int)

  /** A fresh chain that is offered the blocks in order, each at its network time, as
      long as it accepts them. */
  ghost function Rebuild(c: Crypto, s: seq<Block>, times: seq<uint64>): Option<Rebuilt>
    requires |times| == |s|
  {
    if s == [] then Some(Rebuilt(map[], MIN_DIFFICULTY))
    else
      var r := Rebuild(c, Init(s), times[..|s| - 1]);
      if r.None? then None
      else
        var m, index := r.value.ledger, IndexOf(c, Init(s)).Keys;
        if Verdict(c, Last(s), Init(s), m, index, r.value.difficulty, times[|s| - 1]) != SUCCESS then None
        else Some(Rebuilt(Attempt(c, Last(s), Init(s), m, index).ledger, NextDifficulty(r.value.difficulty, s)))
  }

  /** The checks that depend on the node: the rest a surviving block has passed. */
  lemma SurvivorPasses(c: Crypto, s: seq<Block>, d: int, networkTime: uint64)
    requires s != [] && ChainLinked(c, s) && Passed(c, Init(s), Last(s))
    ensures HeaderVerdict(c, Last(s), Init(s), d, networkTime) == SUCCESS
            <==> Last(s).Difficulty() == d && OnTime(Last(s), networkTime)
  {
    hide MedianTime, MerkleRoot, NonceValid, Sorted, Block.GetHash;
  }

  /** A fresh chain accepts the surviving blocks exactly if they replay, no retarget was
      lost on the way, and none comes from the future; it ends up with the replayed
      balances and the difficulty that is due. */
  lemma {:induction false} RebuildExact(c: Crypto, s: seq<Block>, times: seq<uint64>)
    requires |times| == |s| && ChainLinked(c, s) && Checked(c, s)
    ensures Rebuild(c, s, times).Some? <==> Replay(c, s).Some? && OnTrack(s) && AllOnTime(s, times)
    ensures Rebuild(c, s, times).Some? ==> Rebuild(c, s, times).value == Rebuilt(Replay(c, s).value, Asked(s))
  {
    if s == [] {
    } else {
      var front, early, now := Init(s), times[..|s| - 1], times[|s| - 1];
      LinkedInit(c, s);
      RebuildStep(c, s, times);
      ReplayStep(c, s);
      hide *;
      RebuildExact(c, front, early);
      OnTimeSnoc(s, times);
      if Rebuild(c, front, early).Some? {
        OneMore(c, s, Replay(c, front).value, now);
      }
    }
  }

  lemma RebuildStep(c: Crypto, s: seq<Block>, times: seq<uint64>)
    requires |times| == |s| > 0
    ensures var r, known := Rebuild(c, Init(s), times[..|s| - 1]), IndexOf(c, Init(s)).Keys;
            Rebuild(c, s, times)
            == if r.None? then None
               else
                 var m, d := r.value.ledger, r.value.difficulty;
                 if Verdict(c, Last(s), Init(s), m, known, d, times[|s| - 1]) != SUCCESS then None
                 else Some(Rebuilt(Attempt(c, Last(s), Init(s), m, known).ledger, NextDifficulty(d, s)))
  {
    hide Verdict, Attempt, NextDifficulty, IndexOf;
  }

  lemma ReplayStep(c: Crypto, s: seq<Block>)
    requires s != []
    ensures var r := Replay(c, Init(s));
            Replay(c, s)
            == if r.None? || !Executes(c, s, r.value) then None
               else Some(Execute(c, Last(s), r.value, map[], IndexOf(c, Init(s)).Keys, MiningFee(|s| - 1)).ledger)
  {
    hide Executes, Execute, IndexOf, MiningFee;
  }

  lemma LinkedInit(c: Crypto, s: seq<Block>)
    requires s != [] && ChainLinked(c, s) && Checked(c, s)
    ensures ChainLinked(c, Init(s)) && Checked(c, Init(s)) && Passed(c, Init(s), Last(s))
    ensures OnTrack(s) <==> OnTrack(Init(s)) && Last(s).Difficulty() == Asked(Init(s))
  {
    hide Passed, Asked;
  }

  lemma OnTimeSnoc(s: seq<Block>, times: seq<uint64>)
    requires |times| == |s| > 0
    ensures AllOnTime(s, times) <==> AllOnTime(Init(s), times[..|s| - 1]) && OnTime(Last(s), times[|s| - 1])
  {
    hide OnTime;
    var front, early := Init(s), times[..|s| - 1];
    assert forall i :: 0 <= i < |front| ==> s[i] == front[i] && times[i] == early[i];
  }

  lemma OneMore(c: Crypto, s: seq<Block>, m: Balances, networkTime: uint64)
    requires s != [] && ChainLinked(c, s) && Passed(c, Init(s), Last(s))
    ensures var known, d := IndexOf(c, Init(s)).Keys, Asked(Init(s));
            && (Verdict(c, Last(s), Init(s), m, known, d, networkTime) == SUCCESS
                <==> Executes(c, s, m) && Last(s).Difficulty() == d && OnTime(Last(s), networkTime))
            && Attempt(c, Last(s), Init(s), m, known) == Execute(c, Last(s), m, map[], known, MiningFee(|s| - 1))
            && (Last(s).Difficulty() == d ==> NextDifficulty(d, s) == Asked(s))
  {
    hide HeaderVerdict, Execute, OnTime, RetargetHeight, Retarget, Elapsed, IndexOf, MiningFee, ChainLinked;
    SurvivorPasses(c, s, Asked(Init(s)), networkTime);
    SurvivorSorted(c, s);
  }

  lemma SurvivorSorted(c: Crypto, s: seq<Block>)
    requires s != [] && Passed(c, Init(s), Last(s))
    ensures Sorted(c, Last(s)) == Last(s)
  {
  }
}
