/** What the chain's stores must hold, as a function of the blocks that survive. */
module ChainSpec {
  import opened Words
  import opened Power
  import opened Records
  import opened Ledgers
  import opened Execution
  import opened Difficulties
  import opened LeadingZeros
  import opened MerkleSpec
  import opened Supplies

  const MAX_TRANSACTIONS_PER_BLOCK := 25000
  const DIFFICULTY_LOOKBACK := 100
  const DESIRED_BLOCK_TIME_SEC := 90

  function Last(s: seq<Block>): Block
    requires s != []
  {
    s[|s| - 1]
  }

  function Init(s: seq<Block>): seq<Block>
    requires s != []
  {
    s[..|s| - 1]
  }

  // ----- balances -----

  /** What w ends up with when every surviving block moves it by its net amount. */
  function TotalNet(s: seq<Block>, w: Address): int {
    if s == [] then 0 else TotalNet(Init(s), w) + BlockNet(Last(s), w)
  }

  ghost predicate LedgerAgrees(m: Balances, s: seq<Block>) {
    forall w: Address :: Balance(m, w) == TotalNet(s, w) % TWO_64
  }

  ghost predicate BlockTouched(b: Block, wallets: set<Address>) {
    forall t <- b.transactions :: Touched(t, Miner(b.transactions), wallets)
  }

  /** Undoing any block but the first finds every wallet it needs. */
  ghost predicate WalletsExist(wallets: set<Address>, s: seq<Block>) {
    forall i :: 1 <= i < |s| ==> BlockTouched(s[i], wallets)
  }

  // ----- links, work and index -----

  function LastHash(c: Crypto, s: seq<Block>): Hash {
    if s == [] then NULL_HASH else Last(s).GetHash(c)
  }

  ghost predicate ChainLinked(c: Crypto, s: seq<Block>) {
    s != [] ==>
      && ChainLinked(c, Init(s))
      && Last(s).id == |s|
      && Last(s).lastBlockHash == LastHash(c, Init(s))
  }

  /** The sum of 2^difficulty over the blocks. */
  function Work(s: seq<Block>): nat {
    if s == [] then 0
    else
      PowPositive(2, Last(s).Difficulty());
      Work(Init(s)) + Pow(2, Last(s).Difficulty())
  }

  /** The index after the transfers of txs have been entered for block id. */
  function IndexedAs(c: Crypto, index: map<Hash, uint32>, txs: seq<Transaction>, id: uint32): map<Hash, uint32> {
    index + map h | h in TransferHashes(c, txs) :: id
  }

  function Indexed(c: Crypto, index: map<Hash, uint32>, b: Block): map<Hash, uint32> {
    IndexedAs(c, index, b.transactions, b.id)
  }

  lemma IndexedSnoc(c: Crypto, index: map<Hash, uint32>, txs: seq<Transaction>, i: nat, id: uint32)
    requires i < |txs|
    ensures IndexedAs(c, index, txs[..i + 1], id)
            == if txs[i].Transfer? then IndexedAs(c, index, txs[..i], id)[ContentHash(c, txs[i]) := id]
               else IndexedAs(c, index, txs[..i], id)
  {
    hide ContentHash, TransferHashes;
    var h := ContentHash(c, txs[i]);
    TransferHashesSnoc(c, txs, i, h);
  }

  lemma TransferHashesSnoc(c: Crypto, txs: seq<Transaction>, i: nat, h: Hash)
    requires i < |txs| && h == ContentHash(c, txs[i])
    ensures TransferHashes(c, txs[..i + 1])
            == TransferHashes(c, txs[..i]) + (if txs[i].Transfer? then {h} else {})
  {
    assert txs[..i + 1] == txs[..i] + [txs[i]];
    assert forall t :: t in txs[..i + 1] <==> t in txs[..i] || t == txs[i];
  }

  function IndexOf(c: Crypto, s: seq<Block>): map<Hash, uint32> {
    if s == [] then map[] else Indexed(c, IndexOf(c, Init(s)), Last(s))
  }

  /** No transfer, told by its content hash, is in two blocks. */
  ghost predicate NoRepeats(c: Crypto, s: seq<Block>) {
    s != [] ==>
      NoRepeats(c, Init(s)) && IndexOf(c, Init(s)).Keys !! TransferHashes(c, Last(s).transactions)
  }

  // ----- difficulty -----

  predicate RetargetHeight(n: nat) {
    n > 2 * DIFFICULTY_LOOKBACK && n % DIFFICULTY_LOOKBACK == 0
  }

  /** The first bit count after which one more bit would be farther off. */
  function Steps(elapsed: int, expected: int, j: nat, room: nat): nat
    decreases room - j
  {
    if j >= room || Distance(elapsed, expected, j + 1) > Distance(elapsed, expected, j) then j
    else Steps(elapsed, expected, j + 1, room)
  }

  function Elapsed(s: seq<Block>): int
    requires |s| > DIFFICULTY_LOOKBACK
  {
    ToInt32(Sub64(Last(s).timestamp, s[|s| - 1 - DIFFICULTY_LOOKBACK].timestamp))
  }

  function Retarget(current: int, elapsed: int): int {
    var expected := DIFFICULTY_LOOKBACK * DESIRED_BLOCK_TIME_SEC;
    Moved(current, elapsed, expected, Steps(elapsed, expected, 0, Room(current, elapsed, expected)))
  }

  /** What is asked after the last block of s, if d was asked of it. */
  function NextDifficulty(d: int, s: seq<Block>): int
    requires s != []
  {
    if RetargetHeight(|s|) then Retarget(d, Elapsed(s)) else d
  }

  lemma {:induction false} StepsClosest(elapsed: int, expected: int, j: nat, room: nat)
    requires j <= room
    requires forall i: nat | i <= j :: Distance(elapsed, expected, j) <= Distance(elapsed, expected, i)
    ensures Closest(elapsed, expected, Steps(elapsed, expected, j, room), room)
    decreases room - j
  {
    if j >= room || Distance(elapsed, expected, j + 1) > Distance(elapsed, expected, j) {
      FirstRiseIsClosest(elapsed, expected, j, room);
    } else {
      StepsClosest(elapsed, expected, j + 1, room);
    }
  }

  /** Whatever computes a closest bit count computes the retarget. */
  lemma RetargetComputed(current: int, elapsed: int, j: nat)
    requires Closest(elapsed, DIFFICULTY_LOOKBACK * DESIRED_BLOCK_TIME_SEC, j,
                     Room(current, elapsed, DIFFICULTY_LOOKBACK * DESIRED_BLOCK_TIME_SEC))
    ensures Moved(current, elapsed, DIFFICULTY_LOOKBACK * DESIRED_BLOCK_TIME_SEC, j) == Retarget(current, elapsed)
  {
    var expected := DIFFICULTY_LOOKBACK * DESIRED_BLOCK_TIME_SEC;
    var room := Room(current, elapsed, expected);
    StepsClosest(elapsed, expected, 0, room);
    ClosestUnique(elapsed, expected, j, Steps(elapsed, expected, 0, room), room);
  }

  predicate InRange(d: int) { MIN_DIFFICULTY <= d <= TOP_DIFFICULTY }

  lemma RetargetInRange(current: int, elapsed: int)
    requires InRange(current)
    ensures InRange(Retarget(current, elapsed))
  {
    var expected := DIFFICULTY_LOOKBACK * DESIRED_BLOCK_TIME_SEC;
    StepsClosest(elapsed, expected, 0, Room(current, elapsed, expected));
  }

  /** The difficulty that a chain may ask of its next block: that of its last block,
      or at a retarget height the retargeted one. */
  ghost predicate MayAsk(s: seq<Block>, d: int) {
    if s == [] then d == MIN_DIFFICULTY
    else d == Last(s).Difficulty()
         || (RetargetHeight(|s|) && d == Retarget(Last(s).Difficulty(), Elapsed(s)))
  }

  ghost predicate DifficultyTrail(s: seq<Block>) {
    s != [] ==> DifficultyTrail(Init(s)) && MayAsk(Init(s), Last(s).Difficulty())
  }

  lemma {:induction false} TrailInRange(s: seq<Block>, d: int)
    requires DifficultyTrail(s) && MayAsk(s, d)
    ensures InRange(d) && (s != [] ==> InRange(Last(s).Difficulty()))
  {
    if s == [] {
    } else {
      TrailInRange(Init(s), Last(s).Difficulty());
      if RetargetHeight(|s|) {
        RetargetInRange(Last(s).Difficulty(), Elapsed(s));
      }
    }
  }

  // ----- fees -----

  /** The reward for the block after n others, in ten-thousandths of a coin. */
  function MiningFee(n: nat): uint64 {
    var logicalBlock := n + 125180 + 7750;
    if logicalBlock < 1000000 then 500000
    else if logicalBlock < 2000000 then 250000
    else if logicalBlock < 4000000 then 125000
    else 0
  }

  /** Every block has one fee transaction, which pays exactly its reward. */
  ghost predicate FeesPaid(s: seq<Block>) {
    s != [] ==>
      && FeesPaid(Init(s))
      && Fees(Last(s).transactions) == 1
      && FeeAmount(Last(s).transactions) == MiningFee(|s| - 1)
  }

  // ----- how the blocks came in -----

  /** Every block was executed with success, on balances that the blocks before it imply. */
  ghost predicate Executed(c: Crypto, s: seq<Block>) {
    s != [] ==> Executed(c, Init(s)) && exists m: Balances :: LedgerAgrees(m, Init(s)) && Executes(c, s, m)
  }

  /** What the checks establish about a block when it is added to s. */
  ghost predicate Passed(c: Crypto, s: seq<Block>, b: Block) {
    && 0 < |b.transactions| <= MAX_TRANSACTIONS_PER_BLOCK
    && Sorted(c, b) == b && b.merkleRoot == MerkleRoot(c, b.transactions)
    && NonceValid(c, b)
    && (b.id != 1 && |s| > 10 ==> b.timestamp >= MedianTime(s))
  }

  ghost predicate Checked(c: Crypto, s: seq<Block>) {
    s != [] ==> Checked(c, Init(s)) && Passed(c, Init(s), Last(s))
  }

  lemma {:induction false} CheckedAt(c: Crypto, s: seq<Block>, i: nat)
    requires Checked(c, s) && i < |s|
    ensures Passed(c, s[..i], s[i])
  {
    hide Passed;
    if i == |s| - 1 {
      assert Init(s) == s[..i];
    } else {
      CheckedAt(c, Init(s), i);
      assert Init(s)[..i] == s[..i];
    }
  }

  lemma {:induction false} LinkedAt(c: Crypto, s: seq<Block>, i: nat)
    requires ChainLinked(c, s) && i < |s|
    ensures s[i].id == i + 1 && s[i].lastBlockHash == if i == 0 then NULL_HASH else s[i - 1].GetHash(c)
  {
    hide Block.GetHash;
    if i == |s| - 1 {
    } else {
      LinkedAt(c, Init(s), i);
    }
  }

  lemma {:induction false} FeePaidAt(s: seq<Block>, i: nat)
    requires FeesPaid(s) && i < |s|
    ensures Fees(s[i].transactions) == 1 && FeeAmount(s[i].transactions) == MiningFee(i)
  {
    if i == |s| - 1 {
    } else {
      FeePaidAt(Init(s), i);
    }
  }

  ghost predicate Executes(c: Crypto, s: seq<Block>, m: Balances)
    requires s != []
  {
    Execute(c, Last(s), m, map[], IndexOf(c, Init(s)).Keys, MiningFee(|s| - 1)).status == SUCCESS
  }

  // ----- supply -----

  /** What the blocks have created between them. */
  function Minted(s: seq<Block>): nat {
    if s == [] then 0 else Minted(Init(s)) + MintAll(Last(s).transactions, Last(s).id == 1)
  }

  function GenesisDeposits(s: seq<Block>): nat {
    if s == [] then 0 else MintAll(s[0].transactions, true)
  }

  /** The rewards of the blocks after the first, up to n blocks. */
  function Rewards(n: nat): nat {
    if n <= 1 then 0 else Rewards(n - 1) + MiningFee(n - 1)
  }

  const ALL_REWARDS: int := 933_534_500_000

  /** The rewards after genesis up to n blocks, to the last unit; never more than this. */
  lemma {:induction false} RewardsBound(n: nat)
    ensures n >= 1 ==> Rewards(n) == 500000 * (Least(n, 867070) - 1)
                                     + 250000 * (Least(n, 1867070) - Least(n, 867070))
                                     + 125000 * (Least(n, 3867070) - Least(n, 1867070))
    ensures Rewards(n) <= ALL_REWARDS
  {
    if n <= 1 {
    } else {
      RewardsBound(n - 1);
    }
  }

  lemma {:induction false} MintedIsRewards(c: Crypto, s: seq<Block>)
    requires ChainLinked(c, s) && FeesPaid(s)
    ensures Minted(s) == GenesisDeposits(s) + Rewards(|s|)
  {
    if s == [] {
    } else {
      MintedIsRewards(c, Init(s));
      MintIsFee(Last(s).transactions);
      assert |s| > 1 ==> Init(s)[0] == s[0];
    }
  }

  function Nets(s: seq<Block>): Address -> int { (w: Address) => TotalNet(s, w) }

  /** The net amount of w in the blocks s and the first k transactions of b. */
  function RunningNet(s: seq<Block>, b: Block, k: nat, w: Address): int
    requires k <= |b.transactions|
  {
    NetUpTo(b.transactions, Miner(b.transactions), b.id == 1, Nets(s), k, w)
  }

  /** Each payer past genesis has what it pays to others, by the net amounts so far. */
  ghost predicate Solvent(s: seq<Block>) {
    s != [] ==> Solvent(Init(s)) && BlockAfforded(Init(s), Last(s))
  }

  ghost predicate BlockAfforded(s: seq<Block>, b: Block) {
    AffordsFrom(b.transactions, Miner(b.transactions), b.id == 1, Nets(s), 0)
  }

  /** At no point is a net amount below zero or too large for a balance. */
  ghost predicate NetsFit(s: seq<Block>) {
    s != [] ==> NetsFit(Init(s)) && BlockFits(Init(s), Last(s))
  }

  ghost predicate BlockFits(s: seq<Block>, b: Block) {
    forall k, w: Address :: 0 <= k <= |b.transactions| ==> 0 <= RunningNet(s, b, k, w) < TWO_64
  }

  /** The payers can pay, and what is created fits a balance. */
  ghost predicate Sound(s: seq<Block>) { Solvent(s) && Minted(s) < TWO_64 }

  predicate SumsFit(b: Block) { forall t <- b.transactions :: NoWrap(t) }

  /** m holds exactly the net amounts, as integers. */
  ghost predicate Realises(m: Balances, s: seq<Block>) {
    Supply(m) == Minted(s) && forall w: Address :: Balance(m, w) == TotalNet(s, w)
  }

  /** What the running net amounts are for: while the transactions of b are executed on a
      ledger that agrees with s, they are its balances modulo 2^64. */
  lemma RunningBalance(c: Crypto, s: seq<Block>, b: Block, m: Balances, blockFee: uint64, k: nat, w: Address)
    requires k <= |b.transactions| && LedgerAgrees(m, s)
    requires RunAll(c, b.transactions[..k], Miner(b.transactions), m, map[], blockFee, b.id).status == SUCCESS
    ensures Balance(RunAll(c, b.transactions[..k], Miner(b.transactions), m, map[], blockFee, b.id).ledger, w)
            == RunningNet(s, b, k, w) % TWO_64
  {
    hide RunAll, NetAll, TotalNet, Balance;
    var miner, txs := Miner(b.transactions), b.transactions[..k];
    RunMovesByNet(c, txs, miner, m, map[], blockFee, b.id, w);
    TwoSteps(0, Balance(m, w), Balance(RunAll(c, txs, miner, m, map[], blockFee, b.id).ledger, w),
             TotalNet(s, w), NetAll(txs, miner, b.id == 1, w));
  }

  lemma NothingRealised()
    ensures Realises(map[], [])
  {
  }

  /** One block on a ledger that holds the net amounts: it is afforded exactly if all its
      transactions are covered, and then it leaves a ledger that holds them again. */
  lemma BlockRealised(s: seq<Block>, b: Block, m: Balances)
    requires Realises(m, s) && Minted(s + [b]) < TWO_64
    ensures CoveredAll(b.transactions, Miner(b.transactions), b.id == 1, m) <==> BlockAfforded(s, b)
    ensures BlockAfforded(s, b) ==>
              && BlockFits(s, b)
              && Realises(ApplyAll(b.transactions, Miner(b.transactions), b.id == 1, m), s + [b])
  {
    hide Supply, TotalNet, NetAll, Miner, CoveredAll, ApplyAll, AffordsFrom, MintAll, Balance;
    InitOfSnoc(s, b);
    var txs := b.transactions;
    SnocSums(s, b);
    assert txs[0..] == txs && txs[..0] == [] && txs[..|txs|] == txs;
    NoNet(Miner(txs), b.id == 1);
    AllExact(txs, Miner(txs), b.id == 1, Nets(s), m, 0);
  }

  lemma SnocSums(s: seq<Block>, b: Block)
    ensures Minted(s + [b]) == Minted(s) + MintAll(b.transactions, b.id == 1)
    ensures forall w: Address :: TotalNet(s + [b], w) == TotalNet(s, w) + BlockNet(b, w)
  {
    InitOfSnoc(s, b);
  }

  lemma NoNet(miner: Address, genesis: bool)
    ensures forall w: Address :: NetAll([], miner, genesis, w) == 0
  {
  }

  /** Sound chains are exact throughout: some ledger holds their net amounts, all of which
      fit on the way. */
  lemma {:induction false} SoundRealised(s: seq<Block>) returns (m: Balances)
    requires Sound(s)
    ensures Realises(m, s) && NetsFit(s)
  {
    if s == [] {
      m := map[];
      NothingRealised();
    } else {
      hide Realises, BlockAfforded, BlockFits;
      SoundInit(s);
      m := SoundRealised(Init(s));
      assert Init(s) + [Last(s)] == s;
      BlockRealised(Init(s), Last(s), m);
      m := ApplyAll(Last(s).transactions, Miner(Last(s).transactions), Last(s).id == 1, m);
    }
  }

  lemma SoundInit(s: seq<Block>)
    requires s != [] && Sound(s)
    ensures Sound(Init(s))
  {
  }

  /** As long as what is created fits a balance, all running net amounts fit if and only if
      every payer can pay. */
  lemma {:induction false} FitsIffSolvent(s: seq<Block>)
    requires Minted(s) < TWO_64
    ensures NetsFit(s) <==> Solvent(s)
  {
    if s == [] {
    } else {
      hide BlockAfforded, BlockFits;
      FitsIffSolvent(Init(s));
      if Solvent(s) {
        var m := SoundRealised(s);
      } else if NetsFit(s) {
        FittingAffords(Init(s), Last(s));
      }
    }
  }

  lemma FittingAffords(s: seq<Block>, b: Block)
    requires BlockFits(s, b)
    ensures BlockAfforded(s, b)
  {
    hide NetUpTo;
    var txs, miner, genesis := b.transactions, Miner(b.transactions), b.id == 1;
    forall k | 0 <= k < |txs|
      ensures Affords(txs, miner, genesis, Nets(s), k)
    {
      if !txs[k].Fee? {
        assert 0 <= RunningNet(s, b, k + 1, txs[k].from);
        NetUpToNext(txs, miner, genesis, Nets(s), k, txs[k].from);
      }
    }
  }

  /** An executed chain on which no sum of amount and fee wraps around is solvent. */
  lemma {:induction false} SumsFitSolvent(c: Crypto, s: seq<Block>)
    requires Executed(c, s) && ChainLinked(c, s) && Minted(s) < TWO_64
    requires forall i :: 1 <= i < |s| ==> SumsFit(s[i])
    ensures Solvent(s)
  {
    if s == [] {
    } else {
      hide Executes, BlockAfforded, SumsFit, LedgerAgrees;
      assert forall i :: 1 <= i < |s| - 1 ==> Init(s)[i] == s[i];
      SumsFitSolvent(c, Init(s));
      var m: Balances :| LedgerAgrees(m, Init(s)) && Executes(c, s, m);
      ExactLedger(m, Init(s));
      FitAffords(c, s, m);
    }
  }

  lemma FitAffords(c: Crypto, s: seq<Block>, m: Balances)
    requires s != [] && Realises(m, Init(s)) && Executes(c, s, m) && Minted(s) < TWO_64
    requires Last(s).id != 1 ==> SumsFit(Last(s))
    ensures BlockAfforded(Init(s), Last(s))
  {
    hide RunAll, CoveredAll, BlockAfforded, Realises, Scan;
    var b := Last(s);
    assert Init(s) + [b] == s;
    RunCovered(c, b.transactions, Miner(b.transactions), m, map[], MiningFee(|s| - 1), b.id);
    BlockRealised(Init(s), b, m);
  }

  /** Any ledger that agrees with a sound chain holds exactly its net amounts. */
  lemma ExactLedger(m: Balances, s: seq<Block>)
    requires LedgerAgrees(m, s) && Sound(s)
    ensures Realises(m, s)
  {
    hide TotalNet, Minted, Supply, Sound;
    var m0 := SoundRealised(s);
    forall w: Address
      ensures Balance(m, w) == Balance(m0, w)
    {
      var x, y := Balance(m, w), Balance(m0, w);
    }
    SupplySame(m, m0);
  }

  /** The supply of a sound chain is what genesis deposited plus the rewards since,
      never more than the schedule allows, and every balance is exact. */
  lemma SupplyOfChain(c: Crypto, s: seq<Block>, m: Balances, index: map<Hash, uint32>, d: int)
    requires Agrees(c, s, m, index, d) && Sound(s)
    ensures Supply(m) == GenesisDeposits(s) + Rewards(|s|) <= GenesisDeposits(s) + ALL_REWARDS
    ensures forall w: Address :: 0 <= TotalNet(s, w) == Balance(m, w)
  {
    ExactLedger(m, s);
    MintedIsRewards(c, s);
    RewardsBound(|s|);
  }

  /** One more block raises the supply by exactly its mining fee. */
  lemma NextBlockMints(c: Crypto, s: seq<Block>, m: Balances, index: map<Hash, uint32>, d: int,
                       b: Block, m': Balances, index': map<Hash, uint32>, d': int)
    requires s != [] && Agrees(c, s, m, index, d) && Agrees(c, s + [b], m', index', d') && Sound(s + [b])
    ensures Supply(m') == Supply(m) + MiningFee(|s|)
  {
    InitOfSnoc(s, b);
    SoundInit(s + [b]);
    SupplyOfChain(c, s, m, index, d);
    SupplyOfChain(c, s + [b], m', index', d');
  }

  // ----- the whole -----

  /** What holds of the ledger, the index and the difficulty whenever a method of the
      chain is not running. */
  ghost predicate Agrees(c: Crypto, s: seq<Block>, m: Balances, index: map<Hash, uint32>, d: int) {
    && LedgerAgrees(m, s) && WalletsExist(m.Keys, s)
    && ChainLinked(c, s)
    && index == IndexOf(c, s) && NoRepeats(c, s)
    && DifficultyTrail(s) && MayAsk(s, d)
    && FeesPaid(s) && Executed(c, s) && Checked(c, s)
  }

  lemma AgreesLinks(c: Crypto, s: seq<Block>, m: Balances, index: map<Hash, uint32>, d: int)
    requires Agrees(c, s, m, index, d)
    ensures ChainLinked(c, s) && DifficultyTrail(s) && MayAsk(s, d)
  {
  }

  lemma KnownIndex(c: Crypto, s: seq<Block>, m: Balances, index: map<Hash, uint32>, d: int)
    requires Agrees(c, s, m, index, d)
    ensures index == IndexOf(c, s)
  {
  }

  /** Away from the retarget heights the last block's difficulty is asked for. */
  lemma AgreesOffHeight(c: Crypto, s: seq<Block>, m: Balances, index: map<Hash, uint32>, d: int)
    requires s != [] && Agrees(c, s, m, index, d) && !RetargetHeight(|s|)
    ensures d == Last(s).Difficulty()
  {
  }

  /** Asking for the last block's own difficulty is always in agreement. */
  lemma AgreesAtLast(c: Crypto, s: seq<Block>, m: Balances, index: map<Hash, uint32>, d: int)
    requires s != [] && Agrees(c, s, m, index, d)
    ensures Agrees(c, s, m, index, Last(s).Difficulty())
  {
  }

  /** Two ledgers that agree with the same blocks hold the same balances: the
      chain's state is a function of the surviving blocks. */
  lemma SameBlocksSameBalances(m: Balances, m': Balances, s: seq<Block>)
    requires LedgerAgrees(m, s) && LedgerAgrees(m', s)
    ensures forall w: Address :: Balance(m, w) == Balance(m', w)
  {
    forall w: Address
      ensures Balance(m, w) == Balance(m', w)
    {
      var x, y := Balance(m, w), Balance(m', w);
    }
  }

  // ----- adding a block -----

  lemma InitOfSnoc(s: seq<Block>, b: Block)
    ensures Init(s + [b]) == s && Last(s + [b]) == b
  {
  }

  lemma LedgerExtends(m: Balances, m': Balances, s: seq<Block>, b: Block)
    requires LedgerAgrees(m, s)
    requires forall w: Address :: Balance(m', w) == (Balance(m, w) + BlockNet(b, w)) % TWO_64
    ensures LedgerAgrees(m', s + [b])
  {
    InitOfSnoc(s, b);
    forall w: Address
      ensures Balance(m', w) == TotalNet(s + [b], w) % TWO_64
    {
      TwoSteps(0, Balance(m, w), Balance(m', w), TotalNet(s, w), BlockNet(b, w));
    }
  }

  lemma WalletsExtend(wallets: set<Address>, wallets': set<Address>, s: seq<Block>, b: Block)
    requires WalletsExist(wallets, s) && wallets <= wallets'
    requires s != [] ==> BlockTouched(b, wallets')
    ensures WalletsExist(wallets', s + [b])
  {
    forall i | 1 <= i < |s| + 1
      ensures BlockTouched((s + [b])[i], wallets')
    {
      if i < |s| {
        assert BlockTouched(s[i], wallets);
      }
    }
  }

  /** Accepting a block keeps everything in agreement. */
  lemma AgreesExtends(c: Crypto, s: seq<Block>, m: Balances, index: map<Hash, uint32>, d: int,
                      b: Block, m': Balances, d': int)
    requires Agrees(c, s, m, index, d)
    requires b.id == |s| + 1 && b.Difficulty() == d && b.lastBlockHash == LastHash(c, s) && Passed(c, s, b)
    requires var r := Execute(c, b, m, map[], index.Keys, MiningFee(|s|));
             r.status == SUCCESS && r.ledger == m'
    requires d' == NextDifficulty(d, s + [b])
    ensures Agrees(c, s + [b], m', Indexed(c, index, b), d') && m.Keys <= m'.Keys && b.Difficulty() >= 1
  {
    hide LedgerAgrees, Execute, MiningFee, Retarget, Elapsed, TotalNet, Touched, Block.GetHash, Passed;
    InitOfSnoc(s, b);
    TrailInRange(s, d);
    FeeIsPaid(c, s, b, m, index.Keys);
    ExecuteSucceeds(c, b, m, index.Keys, MiningFee(|s|));
    LedgerExtends(m, m', s, b);
    WalletsExtend(m.Keys, m'.Keys, s, b);
    NewTransfers(c, s, index, b);
    assert Executes(c, s + [b], m);
  }

  /** An executed block has one fee, which is right, and its transfers are new. */
  lemma FeeIsPaid(c: Crypto, s: seq<Block>, b: Block, m: Balances, known: set<Hash>)
    requires Execute(c, b, m, map[], known, MiningFee(|s|)).status == SUCCESS
    ensures Fees(b.transactions) == 1 && FeeAmount(b.transactions) == MiningFee(|s|)
    ensures b.id != 1 ==> forall t <- b.transactions :: t.Transfer? ==> ContentHash(c, t) !in known
  {
    hide RunAll, ContentHash, FeeAmount;
    ScanAccepts(c, b.transactions, known, b.id, false);
  }

  lemma NewTransfers(c: Crypto, s: seq<Block>, index: map<Hash, uint32>, b: Block)
    requires index == IndexOf(c, s) && NoRepeats(c, s) && b.id == |s| + 1
    requires b.id != 1 ==> forall t <- b.transactions :: t.Transfer? ==> ContentHash(c, t) !in index
    ensures NoRepeats(c, s + [b])
  {
    InitOfSnoc(s, b);
  }

  /** What passing the checks says about a block, once it is sorted. */
  lemma HeaderPassed(c: Crypto, b: Block, s: seq<Block>, difficulty: int, networkTime: uint64)
    requires HeaderVerdict(c, b, s, difficulty, networkTime) == SUCCESS
    ensures b.id == |s| + 1 && b.Difficulty() == difficulty && b.lastBlockHash == LastHash(c, s)
    ensures Passed(c, s, Sorted(c, b))
  {
    hide MedianTime, NonceValid, MerkleRoot, SortByHash, LastHash, Block.Difficulty;
    SortedSameRoot(c, b.transactions);
    SortedSameNonce(c, b);
  }

  lemma SortedSameRoot(c: Crypto, txs: seq<Transaction>)
    requires txs != []
    ensures MerkleRoot(c, SortByHash(c, txs)) == MerkleRoot(c, txs)
    ensures SortByHash(c, SortByHash(c, txs)) == SortByHash(c, txs)
  {
    SortAgain(c, txs);
    SortDescends(c, txs);
    RootIgnoresOrder(c, txs, SortByHash(c, txs));
  }

  lemma SortedSameNonce(c: Crypto, b: Block)
    ensures NonceValid(c, Sorted(c, b)) == NonceValid(c, b)
  {
  }

  // ----- a rejected block -----

  /** Taking a recorded attempt back restores every balance. */
  lemma RollbackRestores(base: Balances, m: Balances, d: Balances, m': Balances)
    requires Tracks(base, m, d)
    requires forall w: Address :: Balance(m', w) == Sub64(Balance(m, w), Balance(d, w))
    ensures forall w: Address :: Balance(m', w) == Balance(base, w)
  {
    forall w: Address
      ensures Balance(m', w) == Balance(base, w)
    {
      TakenBack(Balance(base, w), Balance(m, w), Balance(d, w), Balance(m', w));
    }
  }

  lemma TakenBack(x: uint64, y: uint64, delta: uint64, z: uint64)
    requires y == Add64(x, delta) && z == Sub64(y, delta)
    ensures z == x
  {
  }

  /** Only balances matter to the agreement: wallets that a failed attempt created
      may stay behind, empty. */
  lemma AgreesRestored(c: Crypto, s: seq<Block>, m: Balances, index: map<Hash, uint32>, d: int, m': Balances)
    requires Agrees(c, s, m, index, d)
    requires m.Keys <= m'.Keys && forall w: Address :: Balance(m', w) == Balance(m, w)
    ensures Agrees(c, s, m', index, d)
  {
    forall i | 1 <= i < |s|
      ensures BlockTouched(s[i], m'.Keys)
    {
      assert BlockTouched(s[i], m.Keys);
    }
  }

  // ----- removing the last block -----

  lemma LedgerShrinks(m: Balances, m': Balances, s: seq<Block>)
    requires s != [] && LedgerAgrees(m, s)
    requires forall w: Address :: Balance(m', w) == (Balance(m, w) - BlockNet(Last(s), w)) % TWO_64
    ensures LedgerAgrees(m', Init(s))
  {
    forall w: Address
      ensures Balance(m', w) == TotalNet(Init(s), w) % TWO_64
    {
      TwoSteps(0, Balance(m, w), Balance(m', w), TotalNet(s, w), -BlockNet(Last(s), w));
    }
  }

  lemma IndexShrinks(c: Crypto, s: seq<Block>)
    requires s != [] && NoRepeats(c, s)
    ensures IndexOf(c, s) - TransferHashes(c, Last(s).transactions) == IndexOf(c, Init(s))
  {
  }

  /** Undoing the last of at least three blocks, and asking for the difficulty of
      the one before it, keeps everything in agreement. */
  lemma AgreesShrinks(c: Crypto, s: seq<Block>, m: Balances, index: map<Hash, uint32>, d: int, m': Balances)
    requires |s| >= 2 && Agrees(c, s, m, index, d) && m'.Keys == m.Keys
    requires forall w: Address :: Balance(m', w) == (Balance(m, w) - BlockNet(Last(s), w)) % TWO_64
    ensures Agrees(c, Init(s), m', index - TransferHashes(c, Last(s).transactions), Last(Init(s)).Difficulty())
  {
    LedgerShrinks(m, m', s);
    IndexShrinks(c, s);
    assert forall i :: 1 <= i < |s| - 1 ==> Init(s)[i] == s[i];
  }

  // ----- what the index says -----

  /** The index names block i for a content hash exactly when surviving block i has
      a transfer with it. */
  lemma {:induction false} IndexExact(c: Crypto, s: seq<Block>, h: Hash, i: uint32)
    requires ChainLinked(c, s) && NoRepeats(c, s)
    ensures h in IndexOf(c, s) && IndexOf(c, s)[h] == i
            <==> 1 <= i <= |s| && h in TransferHashes(c, s[i - 1].transactions)
  {
    if s == [] {
    } else {
      IndexExact(c, Init(s), h, i);
      if 1 <= i < |s| {
        IndexHas(c, Init(s), h, i);
      }
    }
  }

  lemma {:induction false} IndexHas(c: Crypto, s: seq<Block>, h: Hash, i: nat)
    requires 1 <= i <= |s|
    ensures h in TransferHashes(c, s[i - 1].transactions) ==> h in IndexOf(c, s)
  {
    if i == |s| {
    } else {
      IndexHas(c, Init(s), h, i);
    }
  }

  /** No content hash of a transfer occurs in two different surviving blocks. */
  lemma {:induction false} TransfersUnique(c: Crypto, s: seq<Block>, h: Hash, i: nat, j: nat)
    requires NoRepeats(c, s) && i < |s| && j < |s|
    requires h in TransferHashes(c, s[i].transactions) && h in TransferHashes(c, s[j].transactions)
    ensures i == j
  {
    if i < |s| - 1 && j < |s| - 1 {
      TransfersUnique(c, Init(s), h, i, j);
    } else if i < |s| - 1 {
      IndexHas(c, Init(s), h, i + 1);
    } else if j < |s| - 1 {
      IndexHas(c, Init(s), h, j + 1);
    }
  }

  // ----- the verdict on a block -----

  predicate NonceValid(c: Crypto, b: Block) {
    b.lastBlockHash == NULL_HASH || Zeros(c.proofHash(b.GetHash(c), b.nonce)) >= b.Difficulty()
  }

  function InsertTime(x: uint64, ts: seq<uint64>): (r: seq<uint64>)
    ensures multiset(r) == multiset([x]) + multiset(ts) && |r| == |ts| + 1
  {
    if ts == [] || x <= ts[0] then [x] + ts
    else
      assert ts == [ts[0]] + ts[1..];
      [ts[0]] + InsertTime(x, ts[1..])
  }

  /** The library sort. */
  function SortTimes(ts: seq<uint64>): (r: seq<uint64>)
    ensures multiset(r) == multiset(ts) && |r| == |ts|
  {
    if ts == [] then []
    else
      assert ts == [ts[0]] + ts[1..];
      InsertTime(ts[0], SortTimes(ts[1..]))
  }

  predicate Ascending(ts: seq<uint64>) {
    forall i, j :: 0 <= i < j < |ts| ==> ts[i] <= ts[j]
  }

  lemma AscendingCons(x: uint64, ts: seq<uint64>)
    requires Ascending(ts) && forall y <- ts :: x <= y
    ensures Ascending([x] + ts)
  {
    forall i, j | 0 <= i < j < |ts| + 1
      ensures ([x] + ts)[i] <= ([x] + ts)[j]
    {
      assert ([x] + ts)[j] == ts[j - 1];
      assert ts[j - 1] in ts;
    }
  }

  lemma {:induction false} InsertTimeAscends(x: uint64, ts: seq<uint64>)
    requires Ascending(ts)
    ensures Ascending(InsertTime(x, ts))
  {
    if ts != [] && x > ts[0] {
      var rest := InsertTime(x, ts[1..]);
      InsertTimeAscends(x, ts[1..]);
      forall y | y in rest
        ensures ts[0] <= y
      {
        assert y in multiset(rest);
      }
      AscendingCons(ts[0], rest);
    } else {
      AscendingCons(x, ts);
    }
  }

  lemma {:induction false} SortTimesAscends(ts: seq<uint64>)
    ensures Ascending(SortTimes(ts)) && multiset(SortTimes(ts)) == multiset(ts)
  {
    if ts == [] {
    } else {
      SortTimesAscends(ts[1..]);
      InsertTimeAscends(ts[0], SortTimes(ts[1..]));
    }
  }

  function LastTimes(s: seq<Block>, n: nat): (ts: seq<uint64>)
    requires n <= |s|
    ensures |ts| == n
  {
    if n == 0 then [] else LastTimes(s, n - 1) + [s[|s| - n].timestamp]
  }

  /** The middle of a sorted list, or the mean, computed in 64 bits, of the two
      middle ones. */
  function Middle(times: seq<uint64>): uint64
    requires times != []
  {
    var n := |times|;
    if n % 2 == 0 then Add64(times[n / 2], times[n / 2 - 1]) / 2 else times[n / 2]
  }

  /** The median timestamp of the last ten blocks. */
  function MedianTime(s: seq<Block>): uint64
    requires |s| >= 10
  {
    Middle(SortTimes(LastTimes(s, 10)))
  }

  /** The checks of a block against the chain, in the order they are made. */
  function LinkVerdict(c: Crypto, b: Block, n: nat, lastHash: Hash, difficulty: int): Status {
    if |b.transactions| > MAX_TRANSACTIONS_PER_BLOCK then INVALID_TRANSACTION_COUNT
    else if b.id != n + 1 then INVALID_BLOCK_ID
    else if b.Difficulty() != difficulty then INVALID_DIFFICULTY
    else if !NonceValid(c, b) then INVALID_NONCE
    else if b.lastBlockHash != lastHash then INVALID_LASTBLOCK_HASH
    else SUCCESS
  }

  function TimeVerdict(b: Block, s: seq<Block>, networkTime: uint64): Status {
    if b.id != 1 && b.timestamp > Add64(networkTime, 120 * 60) then BLOCK_TIMESTAMP_IN_FUTURE
    else if b.id != 1 && |s| > 10 && b.timestamp < MedianTime(s) then BLOCK_TIMESTAMP_TOO_OLD
    else SUCCESS
  }

  function HeaderVerdict(c: Crypto, b: Block, s: seq<Block>, difficulty: int, networkTime: uint64): Status {
    var link, time := LinkVerdict(c, b, |s|, LastHash(c, s), difficulty), TimeVerdict(b, s, networkTime);
    if link != SUCCESS then link
    else if time != SUCCESS then time
    else if b.transactions == [] then UNDEFINED
    else if b.merkleRoot != MerkleRoot(c, b.transactions) then INVALID_MERKLE_ROOT
    else SUCCESS
  }

  function Sorted(c: Crypto, b: Block): Block {
    b.(transactions := SortByHash(c, b.transactions))
  }

  /** The execution of block b on top of the blocks s. */
  function Attempt(c: Crypto, b: Block, s: seq<Block>, m: Balances, index: set<Hash>): Outcome {
    Execute(c, Sorted(c, b), m, map[], index, MiningFee(|s|))
  }

  /** What adding block b answers, from the blocks it is added to and the ledger. */
  function Verdict(c: Crypto, b: Block, s: seq<Block>, m: Balances, index: set<Hash>, difficulty: int,
                   networkTime: uint64): Status
  {
    var h := HeaderVerdict(c, b, s, difficulty, networkTime);
    if h != SUCCESS then h
    else Attempt(c, b, s, m, index).status
  }

  /** A genesis block that loads: the check it faces each time the chain is reset. */
  predicate GenesisAccepted(c: Crypto, genesis: Block) {
    Verdict(c, genesis, [], map[], {}, MIN_DIFFICULTY, 0) == SUCCESS
  }

  // ----- agreement with a trusted chain -----

  /** How many blocks from the first on have the hashes that the trusted host gives. */
  function AgreedLength(c: Crypto, s: seq<Block>, trusted: nat -> Hash, i: nat): nat
    requires i <= |s|
    decreases |s| - i
  {
    if i == |s| || trusted(i + 1) != s[i].GetHash(c) then i else AgreedLength(c, s, trusted, i + 1)
  }

  /** That is the longest agreeing prefix: it agrees, and the next block does not. */
  lemma {:induction false} AgreedIsLongest(c: Crypto, s: seq<Block>, trusted: nat -> Hash, i: nat)
    requires i <= |s|
    ensures var k := AgreedLength(c, s, trusted, i);
            && i <= k <= |s|
            && (forall j :: i <= j < k ==> trusted(j + 1) == s[j].GetHash(c))
            && (k < |s| ==> trusted(k + 1) != s[k].GetHash(c))
    decreases |s| - i
  {
    if i == |s| || trusted(i + 1) != s[i].GetHash(c) {
    } else {
      AgreedIsLongest(c, s, trusted, i + 1);
    }
  }

  /** The genesis block is never popped. */
  function Kept(c: Crypto, s: seq<Block>, trusted: nat -> Hash): (k: nat)
    requires s != []
    ensures 1 <= k <= |s|
  {
    AgreedIsLongest(c, s, trusted, 0);
    var k := AgreedLength(c, s, trusted, 0);
    if k == 0 then 1 else k
  }

  /** What is kept in a sync: the genesis block, and behind it the blocks before the first
      one that differs from the host's. */
  lemma KeptIs(c: Crypto, s: seq<Block>, trusted: nat -> Hash)
    requires s != []
    ensures var k := Kept(c, s, trusted);
            && 1 <= k <= |s|
            && (k > 1 ==> forall j :: 0 <= j < k ==> trusted(j + 1) == s[j].GetHash(c))
            && (k < |s| ==> trusted(k + 1) != s[k].GetHash(c) || (k == 1 && trusted(1) != s[0].GetHash(c)))
  {
    hide Block.GetHash;
    AgreedIsLongest(c, s, trusted, 0);
  }
}
