/** What the chain guarantees over runs of any length, and what undoing, restarting
    and rejecting restore. */
module ChainRuns {
  import opened Words
  import opened Records
  import opened Ledgers
  import opened Limbs
  import opened Bigints
  import opened BlockStores
  import opened Execution
  import opened Difficulties
  import opened Supplies
  import opened MerkleSpec
  import opened ChainSpec
  import opened Answers
  import opened ChainReplays
  import opened BlockChains

  /** Adding a block and popping it again restores the balances, the index, the
      count, the last hash and the very limbs of the total work.  The difficulty
      comes back exactly when it was that of the last block: at a height where a
      retarget has just moved it, the pop reloads the old one. */
  method AddThenPop(chain: BlockChain, block: Block, networkTime: uint64) returns (status: Status)
    requires chain.Valid() && chain.survivors != []
    modifies chain, chain.ledger, chain.txdb, chain.blockStore, chain.totalWork
    ensures chain.Valid() && chain.survivors == old(chain.survivors)
    ensures chain.numBlocks == old(chain.numBlocks) && chain.lastHash == old(chain.lastHash)
    ensures chain.totalWork.number == old(chain.totalWork.number)
    ensures chain.txdb.index == old(chain.txdb.index)
    ensures forall w: Address :: Balance(chain.ledger.wallets, w) == Balance(old(chain.ledger.wallets), w)
    ensures status == old(Verdict(chain.c, block, chain.survivors, chain.ledger.wallets, chain.txdb.index.Keys,
                                  chain.difficulty, networkTime))
    ensures status != SUCCESS ==> chain.difficulty == old(chain.difficulty)
    ensures status == SUCCESS ==> chain.difficulty == Last(chain.survivors).Difficulty()
    ensures status == SUCCESS ==>
              (chain.difficulty == old(chain.difficulty)
               <==> old(chain.difficulty) == Last(old(chain.survivors)).Difficulty())
    ensures !RetargetHeight(old(chain.numBlocks)) ==> chain.difficulty == old(chain.difficulty)
  {
    hide Agrees, GenesisAccepted, Verdict, AllStored, Work, Retarget, Elapsed;
    ghost var s, m, index, d := chain.survivors, chain.ledger.wallets, chain.txdb.index, chain.difficulty;
    ghost var work := chain.totalWork.number;
    var sorted;
    status, sorted := chain.AddBlock(block, networkTime);
    if status == SUCCESS {
      InitOfSnoc(s, Sorted(chain.c, block));
      var ok := chain.PopBlock();
      StateIsDetermined(chain.c, s, m, index, d, chain.ledger.wallets, chain.txdb.index, chain.difficulty);
      CanonicalUnique(work, chain.totalWork.number);
    } else {
      StateIsDetermined(chain.c, s, m, index, d, chain.ledger.wallets, chain.txdb.index, chain.difficulty);
    }
  }

  /** The surviving blocks determine the balances and the index, and away from the
      retarget heights the difficulty too. */
  lemma StateIsDetermined(c: Crypto, s: seq<Block>, m: Balances, index: map<Hash, uint32>, d: int,
                          m': Balances, index': map<Hash, uint32>, d': int)
    requires s != [] && Agrees(c, s, m, index, d) && Agrees(c, s, m', index', d')
    ensures index == index'
    ensures forall w: Address :: Balance(m, w) == Balance(m', w)
    ensures !RetargetHeight(|s|) ==> d == d' == Last(s).Difficulty()
  {
    SameBlocksSameBalances(m, m', s);
  }

  /** Where a retarget has just moved the difficulty, adding a block and popping it loses
      that.  The next block is asked for the old difficulty, and once it has been accepted
      no fresh node follows this chain. */
  method LoseRetarget(chain: BlockChain, popped: Block, next: Block, networkTime: uint64)
    returns (first: Status, second: Status)
    requires chain.Valid() && chain.survivors != []
    requires chain.difficulty == Asked(chain.survivors) != Last(chain.survivors).Difficulty()
    modifies chain, chain.ledger, chain.txdb, chain.blockStore, chain.totalWork
    ensures chain.Valid()
    ensures first == old(Verdict(chain.c, popped, chain.survivors, chain.ledger.wallets, chain.txdb.index.Keys,
                                 chain.difficulty, networkTime))
    ensures first == SUCCESS ==> exists m: Balances ::
              second == Verdict(chain.c, next, old(chain.survivors), m, old(chain.txdb.index.Keys),
                                Last(old(chain.survivors)).Difficulty(), networkTime)
    ensures first == SUCCESS && second == SUCCESS ==>
              && chain.survivors == old(chain.survivors) + [Sorted(chain.c, next)] && !OnTrack(chain.survivors)
              && forall times: seq<uint64> | |times| == |chain.survivors| ::
                   Rebuild(chain.c, chain.survivors, times).None?
  {
    hide Agrees, GenesisAccepted, AllStored, Work, LastHash, Asked, Attempt, Sorted, HeaderVerdict, Rebuild;
    ghost var s := chain.survivors;
    first := AddThenPop(chain, popped, networkTime);
    ghost var d := chain.difficulty;
    var sorted;
    second, sorted := chain.AddBlock(next, networkTime);
    if first == SUCCESS && second == SUCCESS {
      InitOfSnoc(s, Sorted(chain.c, next));
      AcceptedAsks(chain.c, next, s, d, networkTime);
      NobodyFollows(chain.c, chain.survivors, chain.ledger.wallets, chain.txdb.index, chain.difficulty);
    }
  }

  lemma NobodyFollows(c: Crypto, s: seq<Block>, m: Balances, index: map<Hash, uint32>, d: int)
    requires Agrees(c, s, m, index, d) && !OnTrack(s)
    ensures forall times: seq<uint64> | |times| == |s| :: Rebuild(c, s, times).None?
  {
    hide Agrees, OnTrack, Rebuild;
    forall times: seq<uint64> | |times| == |s|
      ensures Rebuild(c, s, times).None?
    {
      RebuildOfChain(c, s, m, index, d, times);
    }
  }

  lemma AcceptedAsks(c: Crypto, b: Block, s: seq<Block>, d: int, networkTime: uint64)
    requires HeaderVerdict(c, b, s, d, networkTime) == SUCCESS
    ensures Sorted(c, b).Difficulty() == d
  {
    HeaderPassed(c, b, s, d, networkTime);
  }

  /** Two ledgers with the same balances give a transfer past genesis the same status
      exactly when they agree on whether the sender's wallet exists.  A rejected block
      may leave an empty wallet behind, so it can change what a later one answers. */
  lemma ExistenceMatters(c: Crypto, t: Transaction, m: Balances, m': Balances, blockFee: uint64, id: uint32)
    requires t.Transfer? && id != 1 && (id > WALLET_SIG_FORK_BLOCK ==> SenderMatches(c, t))
    requires forall w: Address :: Balance(m, w) == Balance(m', w)
    ensures UpdateStatus(c, t, m, blockFee, id) == UpdateStatus(c, t, m', blockFee, id)
            <==> (t.from in m <==> t.from in m')
  {
    assert Balance(m, t.from) == Balance(m', t.from);
  }

  datatype Step =
    | Add(block: Block, networkTime: uint64)
    | Pop
    | Verify(t: Transaction)
    | Restart
    | Sync(trusted: nat -> Hash, hostWork: seq<Limb>)

  /** A host's work is a number. */
  predicate Possible(step: Step) {
    step.Sync? ==> step.hostWork == [] || Canonical(step.hostWork)
  }

  /** What the surviving blocks explain about a state: every balance, which are also
      those of executing the blocks again wherever that can be done; the links, the work,
      the index, the range of the difficulty, and the supply. */
  ghost predicate Explained(chain: BlockChain)
    reads chain, chain.ledger, chain.txdb, chain.totalWork
  {
    var c, s, m := chain.c, chain.survivors, chain.ledger.wallets;
    && s != [] && s[0] == Sorted(c, chain.genesis)
    && (forall w: Address :: Balance(m, w) == TotalNet(s, w) % TWO_64)
    && (Replay(c, s).Some? <==> Replayable(s))
    && (Replay(c, s).Some? ==> forall w: Address :: Balance(m, w) == Balance(Replay(c, s).value, w))
    && (forall i :: 0 <= i < |s| ==> Vetted(c, s, i))
    && ChainLinked(c, s) && chain.numBlocks == |s| && chain.lastHash == LastHash(c, s)
    && Canonical(chain.totalWork.number) && Val(chain.totalWork.number) == Work(s)
    && chain.txdb.index == IndexOf(c, s) && NoRepeats(c, s)
    && InRange(chain.difficulty)
    && (Sound(s) ==> Supply(m) == GenesisDeposits(s) + Rewards(|s|) <= GenesisDeposits(s) + ALL_REWARDS)
  }

  /** A node that starts on empty stores comes up exactly if its genesis block loads, and
      after any run of steps, with pops guarded as the program guards them, it is in a
      state that its surviving blocks explain. */
  method Run(c: Crypto, genesis: Block, steps: seq<Step>) returns (chain: BlockChain, ok: bool)
    requires forall step <- steps :: Possible(step)
    ensures ok <==> GenesisAccepted(c, genesis)
    ensures ok ==> chain.c == c && chain.genesis == genesis && chain.Valid() && Explained(chain)
  {
    hide GenesisAccepted, Agrees, Explained, Sorted, AllStored, Work, Attempt;
    chain, ok := Start(c, genesis);
    if ok {
      TakeAll(chain, steps);
    }
  }

  method TakeAll(chain: BlockChain, steps: seq<Step>)
    requires chain.Valid() && chain.survivors != []
    requires forall step <- steps :: Possible(step)
    modifies chain, chain.ledger, chain.txdb, chain.blockStore, chain.totalWork
    ensures chain.Valid() && Explained(chain)
  {
    hide Explained;
    for i := 0 to |steps|
      invariant chain.Valid() && chain.survivors != []
      invariant chain.totalWork == old(chain.totalWork) || fresh(chain.totalWork)
    {
      Take(chain, steps[i]);
    }
    ValidExplained(chain);
  }

  lemma ValidExplained(chain: BlockChain)
    requires chain.Valid() && chain.survivors != []
    ensures Explained(chain)
  {
    hide GenesisAccepted, AllStored, Sorted, Executed, Work, Sound, Supply, TotalNet, Replay, Replayable;
    hide Vetted;
    hide Checked;
    var c, s, m := chain.c, chain.survivors, chain.ledger.wallets;
    TrailInRange(s, chain.difficulty);
    if Sound(s) {
      SupplyOfChain(c, s, m, chain.txdb.index, chain.difficulty);
    }
    ReplayAgrees(c, s);
    if Replay(c, s).Some? {
      SameBlocksSameBalances(m, Replay(c, s).value, s);
    }
    AllVetted(c, s);
  }

  method Take(chain: BlockChain, step: Step)
    requires chain.Valid() && chain.survivors != [] && Possible(step)
    modifies chain, chain.ledger, chain.txdb, chain.blockStore, chain.totalWork
    ensures chain.Valid() && chain.survivors != []
    ensures chain.totalWork == old(chain.totalWork) || fresh(chain.totalWork)
  {
    hide Agrees, GenesisAccepted, Verdict, AllStored, Work, SoloVerdict, Kept;
    match step {
      case Add(block, networkTime) =>
        var _, _ := chain.AddBlock(block, networkTime);
      case Pop =>
        if chain.numBlocks > 1 {
          var _ := chain.PopBlock();
        }
      case Verify(t) =>
        var _ := chain.VerifyTransaction(t);
      case Restart =>
        var _ := chain.InitChain();
      case Sync(trusted, hostWork) =>
        var work := new Bigint(0);
        work.number := hostWork;
        chain.PopUntrusted(trusted, work);
    }
  }

  // ----- another node -----

  /** A fresh node with the same genesis block is offered the surviving blocks of this
      one, each at its network time.  It accepts them all exactly if they are replayable,
      no retarget was lost on the way, and none comes from the future; then it has this
      node's balances, and asks for the difficulty that is due. */
  method Follow(chain: BlockChain, times: seq<uint64>) returns (other: BlockChain, accepted: bool)
    requires chain.Valid() && |times| == |chain.survivors| > 0
    ensures accepted <==> Replayable(chain.survivors) && OnTrack(chain.survivors) && AllOnTime(chain.survivors, times)
    ensures accepted ==>
              && other.Valid() && other.survivors == chain.survivors && other.difficulty == Asked(chain.survivors)
              && forall w: Address :: Balance(other.ledger.wallets, w) == Balance(chain.ledger.wallets, w)
  {
    hide GenesisAccepted, Agrees, AllStored, Work, Rebuild, LastHash, Replayable, OnTrack, AllOnTime, Asked;
    AgreesLinks(chain.c, chain.survivors, chain.ledger.wallets, chain.txdb.index, chain.difficulty);
    ghost var s := chain.survivors;
    other := StartAlike(chain, s, times);
    accepted := OfferRest(chain, other, s, times);
    assert s[..|times|] == s && times[..|times|] == times;
    RebuildOfChain(chain.c, chain.survivors, chain.ledger.wallets, chain.txdb.index, chain.difficulty, times);
  }

  ghost predicate Apart(chain: BlockChain, other: BlockChain)
    reads chain, other
  {
    && chain != other && chain.ledger != other.ledger && chain.txdb != other.txdb
    && chain.blockStore != other.blockStore && chain.totalWork != other.totalWork
  }

  /** The other node has accepted the first i of the blocks s. */
  ghost predicate Followed(c: Crypto, s: seq<Block>, times: seq<uint64>, i: nat, other: BlockChain)
    requires i <= |times| == |s|
    reads other, other.ledger, other.txdb, other.blockStore, other.totalWork
  {
    && other.c == c && other.Valid() && other.survivors == s[..i]
    && Rebuild(c, s[..i], times[..i]) == Some(Rebuilt(other.ledger.wallets, other.difficulty))
  }

  /** A fresh node that has come up on the genesis block of an older one. */
  method StartAlike(chain: BlockChain, ghost s: seq<Block>, ghost times: seq<uint64>) returns (other: BlockChain)
    requires chain.Valid() && chain.survivors == s && |times| == |s| > 0
    ensures fresh(other) && fresh(other.ledger) && fresh(other.txdb) && fresh(other.blockStore)
    ensures fresh(other.totalWork) && Followed(chain.c, s, times, 1, other)
  {
    hide GenesisAccepted, Agrees, Sorted, AllStored, Work, Attempt, Rebuild, LastHash;
    var ok;
    other, ok := Start(chain.c, chain.genesis);
    GenesisAgain(chain.c, chain.genesis, times[0]);
    assert s[..1] == [s[0]] && times[..1] == [times[0]];
  }

  method OfferRest(chain: BlockChain, other: BlockChain, ghost s: seq<Block>, times: seq<uint64>)
    returns (accepted: bool)
    requires |times| == |s| > 0
    requires chain.Valid() && chain.survivors == s && Apart(chain, other) && Followed(chain.c, s, times, 1, other)
    modifies other, other.ledger, other.txdb, other.blockStore
    ensures chain.Valid()
    ensures accepted ==> Followed(chain.c, s, times, |times|, other)
    ensures !accepted ==> Rebuild(chain.c, s, times).None?
  {
    hide Followed, Agrees, AllStored, LastHash, GenesisAccepted, Rebuild;
    accepted := true;
    var i := 1;
    while i < |times| && accepted
      invariant 1 <= i <= |times| && chain.Valid()
      invariant other.totalWork == old(other.totalWork) || fresh(other.totalWork)
      invariant accepted ==> Followed(chain.c, s, times, i, other)
      invariant !accepted ==> Rebuild(chain.c, s, times).None?
    {
      accepted := OfferOne(chain, other, s, times, i);
      i := i + 1;
    }
  }

  method OfferOne(chain: BlockChain, other: BlockChain, ghost s: seq<Block>, times: seq<uint64>, i: nat)
    returns (accepted: bool)
    requires 1 <= i < |times| == |s|
    requires chain.Valid() && chain.survivors == s && Apart(chain, other) && Followed(chain.c, s, times, i, other)
    modifies other, other.ledger, other.txdb, other.blockStore
    ensures chain.Valid() && (other.totalWork == old(other.totalWork) || fresh(other.totalWork))
    ensures accepted ==> Followed(chain.c, s, times, i + 1, other)
    ensures !accepted ==> Rebuild(chain.c, s, times).None?
  {
    hide GenesisAccepted, Agrees, Sorted, AllStored, Work, Rebuild, LastHash;
    AgreesLinks(chain.c, s, chain.ledger.wallets, chain.txdb.index, chain.difficulty);
    SurvivorOrder(chain.c, s, chain.ledger.wallets, chain.txdb.index, chain.difficulty, i);
    var block := chain.GetBlock(i + 1);
    OneLonger(s, i);
    OneLonger(times, i);
    accepted := Offer(other, block.value, times[..i], times[i]);
    if !accepted {
      RebuildPrefix(chain.c, s, times, i + 1);
    }
  }

  lemma OneLonger<T>(s: seq<T>, i: nat)
    requires i < |s|
    ensures s[..i] + [s[i]] == s[..i + 1]
  {
  }

  method Offer(chain: BlockChain, block: Block, ghost times: seq<uint64>, networkTime: uint64)
    returns (accepted: bool)
    requires chain.Valid() && chain.survivors != [] && |times| == |chain.survivors| && Sorted(chain.c, block) == block
    requires Rebuild(chain.c, chain.survivors, times) == Some(Rebuilt(chain.ledger.wallets, chain.difficulty))
    modifies chain, chain.ledger, chain.txdb, chain.blockStore
    ensures accepted ==> chain.Valid() && chain.survivors == old(chain.survivors) + [block]
    ensures chain.totalWork == old(chain.totalWork) || fresh(chain.totalWork)
    ensures Rebuild(chain.c, old(chain.survivors) + [block], times + [networkTime])
            == if accepted then Some(Rebuilt(chain.ledger.wallets, chain.difficulty)) else None
  {
    hide GenesisAccepted, Agrees, AllStored, Work, Attempt, Sorted, Verdict, IndexOf, Retarget, Elapsed, HeaderVerdict;
    ghost var s := chain.survivors;
    InitOfSnoc(s, block);
    assert (times + [networkTime])[..|s|] == times;
    KnownIndex(chain.c, s, chain.ledger.wallets, chain.txdb.index, chain.difficulty);
    var status, sorted := chain.AddBlock(block, networkTime);
    accepted := status == SUCCESS;
  }

  lemma GenesisAgain(c: Crypto, genesis: Block, networkTime: uint64)
    requires GenesisAccepted(c, genesis)
    ensures Rebuild(c, [Sorted(c, genesis)], [networkTime])
            == Some(Rebuilt(Attempt(c, genesis, [], map[], {}).ledger, Sorted(c, genesis).Difficulty()))
  {
    hide Execute, MerkleRoot, Rebuild;
    var b := Sorted(c, genesis);
    SortAgain(c, genesis.transactions);
    HeaderPassed(c, genesis, [], MIN_DIFFICULTY, 0);
    assert Verdict(c, b, [], map[], {}, MIN_DIFFICULTY, networkTime) == SUCCESS;
    RebuildOne(c, b, networkTime);
  }

  lemma RebuildOne(c: Crypto, b: Block, networkTime: uint64)
    ensures Rebuild(c, [b], [networkTime])
            == if Verdict(c, b, [], map[], {}, MIN_DIFFICULTY, networkTime) != SUCCESS then None
               else Some(Rebuilt(Attempt(c, b, [], map[], {}).ledger, MIN_DIFFICULTY))
  {
    hide Verdict, Attempt;
    assert Init([b]) == [] && Last([b]) == b && [networkTime][..0] == [];
    assert Rebuild(c, [], []) == Some(Rebuilt(map[], MIN_DIFFICULTY));
    assert IndexOf(c, []).Keys == {};
  }

  lemma SurvivorOrder(c: Crypto, s: seq<Block>, m: Balances, index: map<Hash, uint32>, d: int, i: nat)
    requires Agrees(c, s, m, index, d) && i < |s|
    ensures Sorted(c, s[i]) == s[i]
  {
    CheckedAt(c, s, i);
  }

  lemma {:induction false} RebuildPrefix(c: Crypto, s: seq<Block>, times: seq<uint64>, i: nat)
    requires |times| == |s| && i <= |s| && Rebuild(c, s[..i], times[..i]).None?
    ensures Rebuild(c, s, times).None?
  {
    hide Verdict, Attempt;
    if i == |s| {
      assert s[..i] == s && times[..i] == times;
    } else {
      var front, early := Init(s), times[..|s| - 1];
      assert front[..i] == s[..i] && early[..i] == times[..i];
      RebuildPrefix(c, front, early, i);
    }
  }

  lemma RebuildOfChain(c: Crypto, s: seq<Block>, m: Balances, index: map<Hash, uint32>, d: int, times: seq<uint64>)
    requires Agrees(c, s, m, index, d) && |times| == |s|
    ensures Rebuild(c, s, times).Some? <==> Replayable(s) && OnTrack(s) && AllOnTime(s, times)
    ensures Rebuild(c, s, times).Some? ==>
              && Rebuild(c, s, times).value.difficulty == Asked(s)
              && forall w: Address :: Balance(Rebuild(c, s, times).value.ledger, w) == Balance(m, w)
  {
    hide Rebuild, Replay, OnTrack, AllOnTime, Asked, Replayable, LedgerAgrees;
    RebuildExact(c, s, times);
    ReplayAgrees(c, s);
    if Replay(c, s).Some? {
      SameBlocksSameBalances(m, Replay(c, s).value, s);
    }
  }
}
