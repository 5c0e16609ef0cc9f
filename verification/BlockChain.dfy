/** The chain: it adds blocks to its stores and takes them off again. */
module BlockChains {
  import opened Words
  import opened Power
  import opened Records
  import opened Ledgers
  import opened TransactionStores
  import opened Limbs
  import opened Decimal
  import opened Bigints
  import opened BlockStores
  import opened Execution
  import opened Executors
  import opened Difficulties
  import opened LeadingZeros
  import opened MerkleSpec
  import opened MerkleTrees
  import opened ChainSpec
  import opened Answers

  class BlockChain {
    const c: Crypto
    const genesis: Block
    const ledger: Ledger
    const txdb: TransactionStore
    const blockStore: BlockStore
    var numBlocks: nat
    var totalWork: Bigint
    var lastHash: Hash
    var difficulty: int
    ghost var survivors: seq<Block>   // the blocks that are on the chain, oldest first

    /** Opens empty stores; the genesis block is added by resetting the chain. */
    constructor Open(c: Crypto, genesis: Block)
      ensures blockStore.blockCount == None && totalWork.positive && totalWork.skip == 0
      ensures this.c == c && this.genesis == genesis
      ensures fresh(ledger) && fresh(txdb) && fresh(blockStore) && fresh(totalWork)
    {
      this.c, this.genesis := c, genesis;
      ledger := new Ledger();
      txdb := new TransactionStore();
      blockStore := new BlockStore();
      totalWork := new Bigint(0);
      numBlocks, lastHash, difficulty := 0, NULL_HASH, MIN_DIFFICULTY;
      survivors := [];
    }

    /** The numbers that the chain keeps in memory are those of the survivors. */
    ghost predicate FieldsAgree()
      reads this, totalWork
    {
      && numBlocks == |survivors| && lastHash == LastHash(c, survivors)
      && totalWork.positive && totalWork.skip == 0
      && Canonical(totalWork.number) && Val(totalWork.number) == Work(survivors)
    }

    /** So are the numbers and blocks on disk. */
    ghost predicate StoreAgrees()
      reads this, blockStore, totalWork
    {
      && AllStored(blockStore.headers, blockStore.transactions, survivors)
      && (survivors != [] ==>
            && blockStore.blockCount == Some(numBlocks)
            && totalWork.number != [] && blockStore.totalWork == Some(Text(totalWork.number))
            && survivors[0] == Sorted(c, genesis))
    }

    ghost predicate Valid()
      reads this, ledger, txdb, blockStore, totalWork
    {
      && (survivors != [] ==> GenesisAccepted(c, genesis))
      && FieldsAgree() && StoreAgrees()
      && Agrees(c, survivors, ledger.wallets, txdb.index, difficulty)
    }

    /** Reads a block of the chain; any other id is an exception. */
    method GetBlock(blockId: int) returns (r: Option<Block>)
      requires numBlocks == |survivors| && ChainLinked(c, survivors)
      requires AllStored(blockStore.headers, blockStore.transactions, survivors)
      ensures r == if 1 <= blockId <= numBlocks then Some(survivors[blockId - 1]) else None
    {
      if blockId <= 0 || blockId > numBlocks {
        return None;
      }
      LinkedAt(c, survivors, blockId - 1);
      assert Stored(blockStore.headers, blockStore.transactions, survivors[blockId - 1]);
      r := blockStore.GetBlock(blockId);
    }

    method GetCurrentMiningFee() returns (fee: uint64)
      ensures fee == MiningFee(numBlocks)
    {
      var logicalBlock := numBlocks + 125180 + 7750;
      if logicalBlock < 1000000 {
        return 500000;
      } else if logicalBlock < 2000000 {
        return 250000;
      } else if logicalBlock < 4000000 {
        return 125000;
      } else {
        return 0;
      }
    }

    method VerifyNonce(b: Block) returns (ok: bool)
      ensures ok == NonceValid(c, b)
    {
      if b.lastBlockHash == NULL_HASH {
        return true;
      }
      ok := CheckLeadingZeroBits(c.proofHash(b.GetHash(c), b.nonce), b.Difficulty());
    }

    /** The median timestamp of the last ten blocks. */
    method MedianOfLastTen() returns (median: uint64)
      requires FieldsAgree() && StoreAgrees() && ChainLinked(c, survivors) && numBlocks > 10
      ensures median == MedianTime(survivors)
    {
      var times: seq<uint64> := [];
      for i := 0 to 10
        invariant times == LastTimes(survivors, i)
      {
        var b := GetBlock(numBlocks - i);
        times := times + [b.value.timestamp];
      }
      median := MiddleOf(SortTimes(times));
    }

    static method MiddleOf(times: seq<uint64>) returns (median: uint64)
      requires times != []
      ensures median == Middle(times)
    {
      if |times| % 2 == 0 {
        median := Add64(times[|times| / 2], times[|times| / 2 - 1]) / 2;
      } else {
        median := times[|times| / 2];
      }
    }

    method CheckLink(block: Block) returns (status: Status)
      ensures status == LinkVerdict(c, block, numBlocks, lastHash, difficulty)
    {
      if |block.transactions| > MAX_TRANSACTIONS_PER_BLOCK { return INVALID_TRANSACTION_COUNT; }
      if block.id != numBlocks + 1 { return INVALID_BLOCK_ID; }
      if block.Difficulty() != difficulty { return INVALID_DIFFICULTY; }
      var nonceOk := VerifyNonce(block);
      if !nonceOk { return INVALID_NONCE; }
      if block.lastBlockHash != lastHash { return INVALID_LASTBLOCK_HASH; }
      return SUCCESS;
    }

    method CheckTime(block: Block, networkTime: uint64) returns (status: Status)
      requires FieldsAgree() && StoreAgrees() && ChainLinked(c, survivors)
      ensures status == TimeVerdict(block, survivors, networkTime)
    {
      if block.id != 1 {
        var maxTime := Add64(networkTime, 120 * 60);
        if block.timestamp > maxTime { return BLOCK_TIMESTAMP_IN_FUTURE; }
        if numBlocks > 10 {
          var medianTime := MedianOfLastTen();
          if block.timestamp < medianTime { return BLOCK_TIMESTAMP_TOO_OLD; }
        }
      }
      return SUCCESS;
    }

    /** Every check before a balance is touched.  Computing the Merkle root sorts
        the block's own transactions. */
    method CheckBlock(block: Block, networkTime: uint64) returns (status: Status, sorted: Block)
      requires FieldsAgree() && StoreAgrees() && ChainLinked(c, survivors)
      ensures status == HeaderVerdict(c, block, survivors, difficulty, networkTime)
      ensures sorted == if status == SUCCESS || status == INVALID_MERKLE_ROOT then Sorted(c, block) else block
    {
      sorted := block;
      status := CheckLink(block);
      if status != SUCCESS { return; }
      status := CheckTime(block, networkTime);
      if status != SUCCESS { return; }
      if block.transactions == [] { return UNDEFINED, sorted; }
      var root;
      root, sorted := SortAndHash(block);
      if block.merkleRoot != root { return INVALID_MERKLE_ROOT, sorted; }
      return SUCCESS, sorted;
    }

    method SortAndHash(block: Block) returns (root: Hash, sorted: Block)
      requires block.transactions != []
      ensures root == MerkleRoot(c, block.transactions) && sorted == Sorted(c, block)
    {
      var m := new MerkleTree();
      var txs := m.SetItems(c, block.transactions);
      sorted := block.(transactions := txs);
      assert NodeOk(m.root, m.nodes);
      root := m.root.hash;
    }

    /** Retargets at every hundredth block from the third hundred on. */
    method UpdateDifficulty()
      requires FieldsAgree() && StoreAgrees() && ChainLinked(c, survivors)
      modifies this`difficulty
      ensures difficulty == if RetargetHeight(numBlocks) then Retarget(Last(survivors).Difficulty(), Elapsed(survivors))
                            else old(difficulty)
    {
      if numBlocks <= DIFFICULTY_LOOKBACK * 2 {
        return;
      }
      if numBlocks % DIFFICULTY_LOOKBACK != 0 {
        return;
      }
      var firstID := numBlocks - DIFFICULTY_LOOKBACK;
      var lastID := numBlocks;
      var first := GetBlock(firstID);
      var last := GetBlock(lastID);
      var elapsed := ToInt32(Sub64(last.value.timestamp, first.value.timestamp));
      var target := (lastID - firstID) * DESIRED_BLOCK_TIME_SEC;
      var d, fits, j := ComputeDifficulty(last.value.Difficulty(), elapsed, target);
      RetargetComputed(last.value.Difficulty(), elapsed, j);
      difficulty := d;
    }

    /** Records an executed block: index, store, work, hash and difficulty. */
    method Commit(b: Block)
      requires FieldsAgree() && StoreAgrees() && ChainLinked(c, survivors)
      requires b.id == numBlocks + 1 && |b.transactions| < 0x1_0000_0000 && b.Difficulty() >= 1
      requires b.lastBlockHash == lastHash && (numBlocks == 0 ==> b == Sorted(c, genesis))
      modifies this, txdb, blockStore
      ensures survivors == old(survivors) + [b]
      ensures FieldsAgree() && StoreAgrees() && fresh(totalWork)
      ensures txdb.index == Indexed(c, old(txdb.index), b)
      ensures difficulty == if RetargetHeight(numBlocks) then Retarget(b.Difficulty(), Elapsed(survivors))
                            else old(difficulty)
    {
      IndexBlock(b);
      StoreBlock(b);
      AppendBlock(b);
      UpdateDifficulty();
    }

    method AppendBlock(b: Block)
      requires FieldsAgree() && ChainLinked(c, survivors) && b.Difficulty() >= 1
      requires AllStored(blockStore.headers, blockStore.transactions, survivors + [b])
      requires b.id == numBlocks + 1 && b.lastBlockHash == lastHash
      requires (survivors + [b])[0] == Sorted(c, genesis)
      modifies this`numBlocks, this`totalWork, this`lastHash, this`survivors
      modifies blockStore`blockCount, blockStore`totalWork
      ensures survivors == old(survivors) + [b] && ChainLinked(c, survivors)
      ensures FieldsAgree() && StoreAgrees() && fresh(totalWork)
    {
      hide AllStored, Sorted, GenesisAccepted, Block.GetHash;
      InitOfSnoc(survivors, b);
      numBlocks := numBlocks + 1;
      totalWork := AddWork(totalWork, b.Difficulty());
      blockStore.SetTotalWork(totalWork);
      blockStore.SetBlockCount(numBlocks);
      survivors := survivors + [b];
      lastHash := b.GetHash(c);
    }

    method IndexBlock(b: Block)
      modifies txdb
      ensures txdb.index == Indexed(c, old(txdb.index), b)
    {
      var txs := b.transactions;
      for i := 0 to |txs|
        invariant txdb.index == IndexedAs(c, old(txdb.index), txs[..i], b.id)
      {
        IndexedSnoc(c, old(txdb.index), txs, i, b.id);
        if !txs[i].Fee? {
          txdb.InsertTransaction(c, txs[i], b.id);
        }
      }
      assert txs[..|txs|] == txs;
    }

    method StoreBlock(b: Block)
      requires StoreAgrees() && ChainLinked(c, survivors) && b.id == |survivors| + 1 && |b.transactions| < 0x1_0000_0000
      modifies blockStore`headers, blockStore`transactions
      ensures AllStored(blockStore.headers, blockStore.transactions, survivors + [b])
    {
      ghost var h, t := blockStore.headers, blockStore.transactions;
      blockStore.SetBlock(b);
      forall i | 0 <= i < |survivors| + 1
        ensures Stored(blockStore.headers, blockStore.transactions, (survivors + [b])[i])
      {
        if i < |survivors| {
          LinkedAt(c, survivors, i);
          assert Stored(h, t, survivors[i]);
          StillStored(h, t, blockStore.headers, blockStore.transactions, b.id, survivors[i]);
        }
      }
    }

    /** Adds a block to the end of the chain, or leaves every balance as it was.
        The chain is empty only while it is being reset, and then the block is the
        genesis block. */
    method AddBlock(block: Block, networkTime: uint64) returns (status: Status, sorted: Block)
      requires Valid()
      requires survivors == [] ==> block == genesis && networkTime == 0 && ledger.wallets == map[]
      modifies this, ledger, txdb, blockStore
      ensures Valid()
      ensures status == Verdict(c, block, old(survivors), old(ledger.wallets), old(txdb.index.Keys), old(difficulty),
                                networkTime)
      ensures Answered(c, block, old(survivors), old(difficulty), networkTime, status)
      ensures status == SUCCESS ==> survivors == old(survivors) + [Sorted(c, block)] && fresh(totalWork)
      ensures status == SUCCESS ==> difficulty == NextDifficulty(old(difficulty), survivors)
      ensures status != SUCCESS ==>
                && survivors == old(survivors) && difficulty == old(difficulty) && txdb.index == old(txdb.index)
                && totalWork == old(totalWork)
                && forall w: Address :: Balance(ledger.wallets, w) == Balance(old(ledger.wallets), w)
      ensures var r := Attempt(c, block, old(survivors), old(ledger.wallets), old(txdb.index.Keys));
              var passed := HeaderVerdict(c, block, old(survivors), old(difficulty), networkTime) == SUCCESS;
              && (status == SUCCESS ==> ledger.wallets == r.ledger)
              && (status != SUCCESS ==>
                  ledger.wallets.Keys == if passed then r.ledger.Keys else old(ledger.wallets.Keys))
      ensures old(ledger.wallets.Keys) <= ledger.wallets.Keys
      ensures sorted == block || sorted == Sorted(c, block)
    {
      hide Execute, HeaderVerdict, Stored, TransactionHash, MerkleRoot, Retarget, Elapsed, Passed;
      hide Answered;
      VerdictAnswered(c, block, survivors, ledger.wallets, txdb.index.Keys, difficulty, networkTime);
      status, sorted := CheckBlock(block, networkTime);
      if status != SUCCESS {
        return;
      }
      HeaderPassed(c, block, survivors, difficulty, networkTime);
      ghost var m := ledger.wallets;
      assert survivors == [] ==> txdb.index.Keys == {};
      status := ExecuteOrRollback(sorted);
      if status == SUCCESS {
        Accept(sorted, m);
      }
    }

    lemma Counted()
      requires FieldsAgree()
      ensures numBlocks == |survivors| && lastHash == LastHash(c, survivors)
    {
    }

    /** Records a block that has just been executed on top of the balances m. */
    method Accept(b: Block, ghost m: Balances)
      requires GenesisAccepted(c, genesis) && FieldsAgree() && StoreAgrees()
      requires Agrees(c, survivors, m, txdb.index, difficulty)
      requires b.id == numBlocks + 1 && b.Difficulty() == difficulty && b.lastBlockHash == lastHash
      requires Passed(c, survivors, b) && (numBlocks == 0 ==> b == Sorted(c, genesis))
      requires var r := Execute(c, b, m, map[], txdb.index.Keys, MiningFee(numBlocks));
               r.status == SUCCESS && r.ledger == ledger.wallets
      modifies this, txdb, blockStore
      ensures Valid() && survivors == old(survivors) + [b] && fresh(totalWork) && ledger.wallets == old(ledger.wallets)
      ensures difficulty == NextDifficulty(old(difficulty), survivors)
      ensures m.Keys <= ledger.wallets.Keys
    {
      hide Agrees, Execute, GenesisAccepted, Retarget, Elapsed, AllStored, Work, Indexed, Sorted, ChainLinked;
      ghost var d := NextDifficulty(difficulty, survivors + [b]);
      Counted();
      AgreesLinks(c, survivors, m, txdb.index, difficulty);
      AgreesExtends(c, survivors, m, txdb.index, difficulty, b, ledger.wallets, d);
      hide FieldsAgree, StoreAgrees;
      Commit(b);
    }

    /** Executes a checked block.  If it fails anywhere, what it did is taken back. */
    method ExecuteOrRollback(b: Block) returns (status: Status)
      requires Valid()
      modifies ledger
      ensures var r := Execute(c, b, old(ledger.wallets), map[], txdb.index.Keys, MiningFee(numBlocks));
              && status == r.status
              && (status == SUCCESS ==> ledger.wallets == r.ledger)
      ensures status != SUCCESS ==>
                && Valid() && old(ledger.wallets.Keys) <= ledger.wallets.Keys
                && ledger.wallets.Keys
                   == Execute(c, b, old(ledger.wallets), map[], txdb.index.Keys, MiningFee(numBlocks)).ledger.Keys
      ensures status != SUCCESS ==> forall w: Address :: Balance(ledger.wallets, w) == Balance(old(ledger.wallets), w)
    {
      hide Agrees, GenesisAccepted, AllStored, Work, Execute, Sorted, LastHash;
      var deltasFromBlock := new LedgerState();
      var fee := GetCurrentMiningFee();
      ExecuteTracks(c, b, ledger.wallets, txdb.index.Keys, fee);
      status := ExecuteBlock(c, b, ledger, txdb, deltasFromBlock, fee);
      ghost var m := ledger.wallets;
      if status != SUCCESS {
        var ok := Rollback(ledger, deltasFromBlock);
        RollbackRestores(old(ledger.wallets), m, deltasFromBlock.deltas, ledger.wallets);
        AgreesRestored(c, survivors, old(ledger.wallets), txdb.index, difficulty, ledger.wallets);
      }
    }

    /** Clears every store and loads the genesis block again. */
    method ResetChain() returns (status: Status)
      requires totalWork.positive && totalWork.skip == 0
      modifies this, ledger, txdb, blockStore, totalWork
      ensures status == SUCCESS <==> GenesisAccepted(c, genesis)
      ensures status == SUCCESS ==> Valid() && survivors == [Sorted(c, genesis)] && fresh(totalWork)
      ensures status == SUCCESS ==> ledger.wallets == Attempt(c, genesis, [], map[], {}).ledger
    {
      difficulty := MIN_DIFFICULTY;
      numBlocks := 0;
      totalWork.Assign(0);
      lastHash := NULL_HASH;
      ledger.Clear();
      blockStore.Clear();
      txdb.Clear();
      survivors := [];
      EmptyAgrees(c);
      ZeroLimb();
      assert txdb.index.Keys == {};
      var sorted;
      status, sorted := AddBlock(genesis, 0);
    }

    /** Takes 2^difficulty off the total work, and records the new total. */
    method SubtractWork(d: int)
      requires 1 <= d < 256 && totalWork.positive && totalWork.skip == 0 && Canonical(totalWork.number)
      requires Val(totalWork.number) >= Pow(2, d)
      modifies totalWork, blockStore`totalWork
      ensures totalWork.positive && totalWork.skip == 0 && Canonical(totalWork.number)
      ensures Val(totalWork.number) == old(Val(totalWork.number)) - Pow(2, d)
      ensures blockStore.totalWork == Some(Text(totalWork.number))
    {
      var base := new Bigint(2);
      LimbsOfValue(2);
      base.PowAssign(d);
      CanonicalDifference(totalWork.number, base.number);
      totalWork.SubAssign(base);
      blockStore.SetTotalWork(totalWork);
    }

    method UndoLast() returns (ok: bool, last: Block)
      requires Valid() && survivors != []
      modifies ledger, txdb
      ensures last == Last(survivors)
      ensures numBlocks >= 2 ==>
                && ok
                && Agrees(c, Init(survivors), ledger.wallets, txdb.index, Last(Init(survivors)).Difficulty())
    {
      hide Agrees, Stored, GenesisAccepted, ContentHash, TransferHashes, NetAll, ChainLinked, AllStored, Work, Sorted;
      AgreesLinks(c, survivors, ledger.wallets, txdb.index, difficulty);
      var stored := GetBlock(numBlocks);
      last := stored.value;
      ghost var m, index := ledger.wallets, txdb.index;
      ok := RollbackBlock(c, last, ledger, txdb);
      if numBlocks >= 2 {
        LastTouched(c, survivors, m, index, difficulty);
        LinkedAt(c, survivors, numBlocks - 1);
        AgreesShrinks(c, survivors, m, index, difficulty, ledger.wallets);
      }
    }

    method DropLast(last: Block)
      requires FieldsAgree() && StoreAgrees() && survivors != [] && last == Last(survivors) && last.Difficulty() >= 1
      modifies this`numBlocks, this`survivors, totalWork, blockStore`totalWork, blockStore`blockCount
      ensures survivors == Init(old(survivors)) && numBlocks == |survivors|
      ensures totalWork.positive && totalWork.skip == 0 && Canonical(totalWork.number)
      ensures Val(totalWork.number) == Work(survivors)
      ensures blockStore.blockCount == Some(numBlocks) && blockStore.totalWork == Some(Text(totalWork.number))
      ensures AllStored(blockStore.headers, blockStore.transactions, survivors) && StoreAgrees()
    {
      StoredInit(blockStore.headers, blockStore.transactions, survivors);
      numBlocks := numBlocks - 1;
      SubtractWork(last.Difficulty());
      blockStore.SetBlockCount(numBlocks);
      survivors := Init(survivors);
    }

    /** Takes the last block off.  With two blocks left or fewer the chain starts over
        from genesis; undoing the genesis block itself may fail on a wallet that it
        never debited, which leaves the chain unusable. */
    method PopBlock() returns (ok: bool)
      requires Valid() && survivors != []
      modifies this, ledger, txdb, blockStore, totalWork
      ensures old(numBlocks) >= 2 ==> ok && survivors == Init(old(survivors))
      ensures ok ==> Valid() && survivors != []
      ensures old(numBlocks) >= 3 ==> totalWork == old(totalWork)
      ensures ok ==> difficulty == Last(survivors).Difficulty()
      ensures old(numBlocks) < 3 && ok ==> survivors == [Sorted(c, genesis)] && fresh(totalWork)
    {
      hide Agrees, GenesisAccepted, AllStored, Work, ChainLinked, DifficultyTrail, MayAsk, Sorted, LastHash;
      var last;
      AgreesLinks(c, survivors, ledger.wallets, txdb.index, difficulty);
      TrailInRange(survivors, difficulty);
      ok, last := UndoLast();
      if !ok {
        return;
      }
      DropLast(last);
      if numBlocks > 1 {
        TakeUp();
      } else {
        StartOver();
      }
    }

    /** Goes on from the block that is now the last one. */
    method TakeUp()
      requires survivors != [] && numBlocks == |survivors| && GenesisAccepted(c, genesis) && StoreAgrees()
      requires totalWork.positive && totalWork.skip == 0
      requires Canonical(totalWork.number) && Val(totalWork.number) == Work(survivors)
      requires Agrees(c, survivors, ledger.wallets, txdb.index, Last(survivors).Difficulty())
      modifies this`difficulty, this`lastHash
      ensures Valid() && difficulty == Last(survivors).Difficulty()
    {
      hide Agrees, GenesisAccepted, AllStored, Work, ChainLinked, Sorted;
      AgreesLinks(c, survivors, ledger.wallets, txdb.index, Last(survivors).Difficulty());
      LookAtLast();
    }

    /** Goes on from genesis, which has been accepted before. */
    method StartOver()
      requires totalWork.positive && totalWork.skip == 0 && GenesisAccepted(c, genesis)
      modifies this, ledger, txdb, blockStore, totalWork
      ensures Valid() && survivors == [Sorted(c, genesis)] && fresh(totalWork)
      ensures difficulty == Last(survivors).Difficulty()
    {
      hide Agrees, GenesisAccepted, AllStored, Work, ChainLinked, Sorted, Attempt, LastHash;
      var status := ResetChain();
      AgreesOffHeight(c, survivors, ledger.wallets, txdb.index, difficulty);
    }

    method LookAtLast()
      requires numBlocks == |survivors| && survivors != [] && ChainLinked(c, survivors)
      requires AllStored(blockStore.headers, blockStore.transactions, survivors) && StoreAgrees()
      modifies this`difficulty, this`lastHash
      ensures StoreAgrees()
      ensures difficulty == Last(survivors).Difficulty() && lastHash == LastHash(c, survivors)
    {
      var newLast := GetBlock(numBlocks);
      difficulty := newLast.value.Difficulty();
      lastHash := newLast.value.GetHash(c);
    }

    /** Would this transaction pass on its own?  Trying it out changes no balance. */
    method VerifyTransaction(t: Transaction) returns (status: Status)
      requires Valid()
      modifies ledger
      ensures Valid() && old(ledger.wallets.Keys) <= ledger.wallets.Keys
      ensures forall w: Address :: Balance(ledger.wallets, w) == Balance(old(ledger.wallets), w)
      ensures status == SoloVerdict(c, t, old(ledger.wallets), txdb.index.Keys)
      ensures SoloAnswered(c, t, survivors, old(ledger.wallets), status)
    {
      hide SoloAnswered, Agrees, UpdateStatus, SignatureValid, SenderMatches, ContentHash, GenesisAccepted, AllStored;
      hide Work, Sorted;
      KnownIndex(c, survivors, ledger.wallets, txdb.index, difficulty);
      SoloAnswers(c, t, survivors, ledger.wallets);
      if t.Fee? { return EXTRA_MINING_FEE; }
      if !SignatureValid(c, t) { return INVALID_SIGNATURE; }
      status := TryOut(t);
      var known := txdb.HasTransaction(c, t);
      if known {
        status := EXPIRED_TRANSACTION;
      }
    }

    /** Executes one signed transfer and takes back what that did. */
    method TryOut(t: Transaction) returns (status: Status)
      requires Valid() && t.Transfer? && SignatureValid(c, t)
      modifies ledger
      ensures Valid() && old(ledger.wallets.Keys) <= ledger.wallets.Keys
      ensures forall w: Address :: Balance(ledger.wallets, w) == Balance(old(ledger.wallets), w)
      ensures status == if !SenderMatches(c, t) then WALLET_SIGNATURE_MISMATCH
                        else UpdateStatus(c, t, old(ledger.wallets), 0, 0)
    {
      hide Agrees, Apply, UpdateStatus, SignatureValid, SenderMatches, GenesisAccepted, AllStored, Work, Sorted;
      var deltas := new LedgerState();
      assert Tracks(ledger.wallets, ledger.wallets, deltas.deltas);
      status := ExecuteTransaction(c, t, ledger, deltas);
      ghost var m := ledger.wallets;
      var ok := Rollback(ledger, deltas);
      RollbackRestores(old(ledger.wallets), m, deltas.deltas, ledger.wallets);
      AgreesRestored(c, survivors, old(ledger.wallets), txdb.index, difficulty, ledger.wallets);
    }

    /** Starts again from what is on disk, or from genesis if nothing is.  A genesis
        block that does not load is an exception. */
    method InitChain() returns (ok: bool)
      requires blockStore.blockCount.Some? ==> Valid() && survivors != []
      requires blockStore.blockCount.None? ==> totalWork.positive && totalWork.skip == 0
      modifies this, ledger, txdb, blockStore, totalWork
      ensures ok ==> Valid() && survivors != [] && fresh(totalWork)
      ensures old(blockStore.blockCount).None? ==>
                && (ok <==> GenesisAccepted(c, genesis)) && (ok ==> survivors == [Sorted(c, genesis)])
                && (ok ==> ledger.wallets == Attempt(c, genesis, [], map[], {}).ledger)
      ensures old(blockStore.blockCount).Some? ==>
                && ok && survivors == old(survivors)
                && numBlocks == old(numBlocks) && lastHash == old(lastHash)
                && totalWork.number == old(totalWork.number)
                && ledger.wallets == old(ledger.wallets) && txdb.index == old(txdb.index)
                && difficulty == Last(survivors).Difficulty()
    {
      hide Agrees, GenesisAccepted, Stored, Work, Retarget, Elapsed, Parsed, Text;
      if blockStore.blockCount.Some? {
        AgreesLinks(c, survivors, ledger.wallets, txdb.index, difficulty);
        AgreesAtLast(c, survivors, ledger.wallets, txdb.index, difficulty);
        numBlocks := blockStore.blockCount.value;
        ParsedText(totalWork.number);
        LookAtLast();
        var work := blockStore.GetTotalWork();
        totalWork := work.value;
        ok := true;
      } else {
        var status := ResetChain();
        ok := status == SUCCESS;
      }
    }

    /** The part of a sync that gives blocks up: if the trusted host has more work,
        everything from the first block that differs from its chain. */
    method PopUntrusted(trusted: nat -> Hash, hostWork: Bigint)
      requires Valid() && survivors != []
      requires hostWork.positive && (hostWork.number == [] || Canonical(hostWork.number)) && hostWork != totalWork
      modifies this, ledger, txdb, blockStore, totalWork
      ensures Valid() && survivors != [] && (totalWork == old(totalWork) || fresh(totalWork))
      ensures Val(old(hostWork.number)) > Val(old(totalWork.number)) ==>
                survivors == old(survivors)[..Kept(c, old(survivors), trusted)]
      ensures Val(old(hostWork.number)) <= Val(old(totalWork.number)) ==>
                survivors == old(survivors) && ledger.wallets == old(ledger.wallets)
      ensures difficulty == if survivors == old(survivors) then old(difficulty) else Last(survivors).Difficulty()
    {
      hide Agrees, GenesisAccepted, AllStored, AgreedLength, Work, ChainLinked, Sorted, LastHash;
      WorkIsPositive(survivors);
      AgreesLinks(c, survivors, ledger.wallets, txdb.index, difficulty);
      var order := hostWork.Compare(totalWork);
      if order == 1 {
        var toPop := CountUntrusted(trusted);
        PopMany(toPop);
      }
    }

    /** Pops that many blocks, but never the genesis block. */
    method PopMany(toPop: nat)
      requires Valid() && survivors != [] && toPop <= |survivors|
      modifies this, ledger, txdb, blockStore, totalWork
      ensures Valid() && survivors != [] && (totalWork == old(totalWork) || fresh(totalWork))
      ensures survivors == old(survivors)[..if toPop == |old(survivors)| then 1 else |old(survivors)| - toPop]
      ensures difficulty == if survivors == old(survivors) then old(difficulty) else Last(survivors).Difficulty()
    {
      hide Agrees, GenesisAccepted, AllStored, Work, ChainLinked, Sorted, LastHash;
      ghost var s := survivors;
      var i := 0;
      while i < toPop
        invariant 0 <= i <= toPop && Valid() && survivors != []
        invariant survivors == s[..|s| - i]
        invariant difficulty == if i == 0 then old(difficulty) else Last(survivors).Difficulty()
        invariant totalWork == old(totalWork) || fresh(totalWork)
      {
        if numBlocks == 1 {
          break;
        }
        var ok := PopBlock();
        i := i + 1;
      }
    }

    method CountUntrusted(trusted: nat -> Hash) returns (toPop: nat)
      requires FieldsAgree() && StoreAgrees() && ChainLinked(c, survivors)
      ensures toPop == |survivors| - AgreedLength(c, survivors, trusted, 0)
    {
      var i := 1;
      while i <= numBlocks
        invariant 1 <= i <= numBlocks + 1
        invariant AgreedLength(c, survivors, trusted, 0) == AgreedLength(c, survivors, trusted, i - 1)
      {
        var mine := GetBlock(i);
        if trusted(i) != mine.value.GetHash(c) {
          return numBlocks - i + 1;
        }
        i := i + 1;
      }
      return 0;
    }
  }

  /** Starts a node on empty stores, which comes up exactly if genesis loads. */
  method Start(c: Crypto, genesis: Block) returns (chain: BlockChain, ok: bool)
    ensures fresh(chain) && fresh(chain.ledger) && fresh(chain.txdb) && fresh(chain.blockStore)
    ensures chain.c == c && chain.genesis == genesis
    ensures ok <==> GenesisAccepted(c, genesis)
    ensures ok ==> chain.Valid() && chain.survivors == [Sorted(c, genesis)] && fresh(chain.totalWork)
    ensures ok ==> chain.ledger.wallets == Attempt(c, genesis, [], map[], {}).ledger
    ensures ok ==> chain.difficulty == Last(chain.survivors).Difficulty()
  {
    hide Agrees, GenesisAccepted, AllStored, Work, Attempt, Sorted;
    chain := new BlockChain.Open(c, genesis);
    ok := chain.InitChain();
    if ok {
      AgreesOffHeight(c, chain.survivors, chain.ledger.wallets, chain.txdb.index, chain.difficulty);
    }
  }

  lemma LastTouched(c: Crypto, s: seq<Block>, m: Balances, index: map<Hash, uint32>, d: int)
    requires |s| >= 2 && Agrees(c, s, m, index, d)
    ensures BlockTouched(Last(s), m.Keys)
  {
    hide LedgerAgrees, ChainLinked, IndexOf, NoRepeats, DifficultyTrail, MayAsk, FeesPaid, BlockTouched;
    assert BlockTouched(s[|s| - 1], m.Keys);
  }

  lemma WorkIsPositive(s: seq<Block>)
    requires s != []
    ensures Work(s) > 0
  {
    PowPositive(2, Last(s).Difficulty());
  }

  lemma StoredInit(headers: HeaderTable, transactions: TransactionTable, s: seq<Block>)
    requires s != [] && AllStored(headers, transactions, s)
    ensures AllStored(headers, transactions, Init(s))
  {
    forall i | 0 <= i < |s| - 1
      ensures Stored(headers, transactions, Init(s)[i])
    {
      assert Stored(headers, transactions, s[i]);
    }
  }

  lemma CanonicalDifference(a: seq<Limb>, b: seq<Limb>)
    requires Canonical(a) && Canonical(b) && Val(a) >= Val(b)
    ensures |b| <= |a|
    ensures Canonical(Trim(Difference(a, b, 0))) && Val(Trim(Difference(a, b, 0))) == Val(a) - Val(b)
    ensures Trim(Trim(Difference(a, b, 0))) == Trim(Difference(a, b, 0))
  {
    if |a| < |b| {
      ShorterIsLess(a, b);
    }
    BorrowedIffLess(a, b);
    DifferenceIsSubtraction(a, b, 0);
    TrimKeepsValue(Difference(a, b, 0));
  }

  /** The state just after the stores have been cleared. */
  lemma EmptyAgrees(c: Crypto)
    ensures Agrees(c, [], map[], map[], MIN_DIFFICULTY)
  {
  }
}
