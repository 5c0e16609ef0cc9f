/** Two runs from empty stores, under a hash that never changes: one in which a rejected
    block decides what becomes of the next, and one in which a pop loses a retarget. */
module FlatRuns {
  import opened Words
  import opened Records
  import opened Ledgers
  import opened BlockStores
  import opened Execution
  import opened Difficulties
  import opened MerkleSpec
  import opened ChainSpec
  import opened Answers
  import opened ChainReplays
  import opened BlockChains
  import opened ChainRuns
  import opened Leftovers

  /** A hash that is always the same; every nonce and every signature is valid under it. */
  function Flat(): Crypto {
    Crypto(_ => NULL_HASH, (_, _) => NULL_HASH, _ => NULL_ADDRESS, (_, _, _) => true)
  }

  function Plain(id: uint32, timestamp: uint64, difficulty: byte, txs: seq<Transaction>): Block {
    Block(id, timestamp, difficulty, txs, NULL_HASH, NULL_HASH, NULL_HASH)
  }

  lemma {:induction false} FlatHashes(txs: seq<Transaction>)
    ensures forall h <- Hashes(Flat(), txs) :: h == NULL_HASH
  {
    if txs == [] {
    } else {
      FlatHashes(txs[1..]);
    }
  }

  lemma FlatOrder(txs: seq<Transaction>)
    ensures SortByHash(Flat(), txs) == txs
  {
    var hs := Hashes(Flat(), txs);
    FlatHashes(txs);
    forall i | 0 <= i < |hs|
      ensures hs[i] == NULL_HASH
    {
      assert hs[i] in hs;
    }
    SortedStays(Flat(), txs);
  }

  lemma FlatRoot(txs: seq<Transaction>)
    requires txs != []
    ensures MerkleRoot(Flat(), txs) == NULL_HASH
  {
    hide RootTree;
    RootTreeShape(Flat(), txs);
  }

  /** Only its time can be wrong with a plain block of the difficulty asked for. */
  lemma FlatPasses(b: Block, s: seq<Block>, d: byte, networkTime: uint64)
    requires |s| < 0xFFFF_FFFF && b == Plain(|s| + 1, b.timestamp, d, b.transactions) && 1 <= |b.transactions| <= 2
    requires TimeVerdict(b, s, networkTime) == SUCCESS
    ensures HeaderVerdict(Flat(), b, s, d, networkTime) == SUCCESS && Sorted(Flat(), b) == b
  {
    hide SortByHash, MerkleRoot, TimeVerdict;
    FlatOrder(b.transactions);
    FlatRoot(b.transactions);
    assert LinkVerdict(Flat(), b, |s|, LastHash(Flat(), s), d) == SUCCESS;
  }

  /** A block that pays its fee and nothing else executes on every ledger. */
  lemma FeeExecutes(c: Crypto, b: Block, a: Address, m: Balances, known: set<Hash>, blockFee: uint64)
    requires |b.transactions| == 1 && PaysFee(b.transactions[0], a, blockFee)
    ensures var r := Execute(c, b, m, map[], known, blockFee);
            r.status == SUCCESS && r.ledger == Credit(m, a, blockFee)
    ensures NamedBy(b) == {a} && TransferHashes(c, b.transactions) == {}
  {
    hide Credit;
    var txs := b.transactions;
    assert txs[1..] == [] && FirstFee(txs) == txs[0];
    assert Scan(c, txs[1..], known, b.id, true) == SUCCESS && NamedAll(txs[1..], a, b.id == 1) == {};
    assert Apply(txs[0], a, b.id == 1, m) == Credit(m, a, blockFee);
    var m1, d1 := Credit(m, a, blockFee), Credit(map[], a, blockFee);
    assert RunAll(c, txs[1..], a, m1, d1, blockFee, b.id) == Outcome(SUCCESS, m1, d1);
  }

  /** The genesis block alone, with its fee for a. */
  lemma FlatGenesis(b: Block, a: Address)
    requires b == Plain(1, b.timestamp, MIN_DIFFICULTY, b.transactions)
    requires |b.transactions| == 1 && PaysFee(b.transactions[0], a, MiningFee(0))
    ensures GenesisAccepted(Flat(), b) && Sorted(Flat(), b) == b
    ensures Attempt(Flat(), b, [], map[], {}).ledger == map[a := 500000]
    ensures NamedIn([b]) == {a} && IndexOf(Flat(), [b]) == map[]
  {
    hide SortByHash, HeaderVerdict, Execute, NamedBy, TransferHashes;
    FlatPasses(b, [], MIN_DIFFICULTY, 0);
    FeeExecutes(Flat(), b, a, map[], {}, 500000);
    var s := [b];
    assert Init(s) == [] && Last(s) == b;
    assert NamedIn([]) == {} && IndexOf(Flat(), []) == map[];
  }

  /** It can come to that: genesis, a rejected block, and a block that lives off it. */
  method LeftoverRun(a: Address, w: Address, z: Address, signature: Signature, key: Key)
    returns (chain: BlockChain, first: Status, second: Status)
    requires a != w && a != z && w != z
    ensures chain.Valid() && first == SENDER_DOES_NOT_EXIST && second == SUCCESS
    ensures |chain.survivors| == 2 && Replay(chain.c, chain.survivors).None?
  {
    hide Agrees, GenesisAccepted, HeaderVerdict, Attempt, NamedIn, IndexOf, Replay, AllStored, Work, Sorted, SortByHash;
    hide FeeThen, Answered, Verdict, LastHash;
    var fee := Fee(a, 500000, 0, 0, signature, key);
    var genesis := Plain(1, 0, 16, [fee]);
    var rejected := Plain(2, 0, 16, [Fee(w, 500000, 0, 0, signature, key), Transfer(z, a, 1, 0, 0, signature, key)]);
    var next := Plain(2, 0, 16, [fee, Transfer(w, a, 0, 0, 0, signature, key)]);
    FlatGenesis(genesis, a);
    FlatPair(rejected, [genesis], w);
    FlatPair(next, [genesis], a);
    var ok;
    chain, ok := Start(Flat(), genesis);
    first, second := Leftover(chain, rejected, next, w, a, rejected.transactions[1], next.transactions[1], 0);
  }

  /** A plain second block with a fee and a transfer, under the flat hash. */
  lemma FlatPair(b: Block, s: seq<Block>, payee: Address)
    requires |s| == 1 && IndexOf(Flat(), s) == map[] && b == Plain(2, 0, 16, b.transactions)
    requires |b.transactions| == 2 && PaysFee(b.transactions[0], payee, MiningFee(1)) && b.transactions[1].Transfer?
    ensures HeaderVerdict(Flat(), b, s, 16, 0) == SUCCESS && Sorted(Flat(), b) == b
    ensures FeeThen(Flat(), b, s, payee, b.transactions[1])
  {
    hide HeaderVerdict, Sorted, IndexOf;
    FlatPasses(b, s, 16, 0);
  }

  // ----- a chain in half the expected time -----

  lemma {:induction false} LastTimesBound(s: seq<Block>, n: nat, bound: uint64)
    requires n <= |s| && forall b <- s :: b.timestamp <= bound
    ensures forall x <- LastTimes(s, n) :: x <= bound
  {
    if n == 0 {
    } else {
      LastTimesBound(s, n - 1, bound);
      assert s[|s| - n] in s;
    }
  }

  /** The median is no later than the latest block. */
  lemma MedianBound(s: seq<Block>, bound: uint64)
    requires |s| >= 10 && bound < 0x8000_0000_0000_0000 && forall b <- s :: b.timestamp <= bound
    ensures MedianTime(s) <= bound
  {
    var ts := LastTimes(s, 10);
    var sorted := SortTimes(ts);
    LastTimesBound(s, 10, bound);
    forall i | 0 <= i < |sorted|
      ensures sorted[i] <= bound
    {
      assert sorted[i] in multiset(sorted);
      assert sorted[i] in ts;
    }
    assert Add64(sorted[5], sorted[4]) == sorted[5] + sorted[4];
  }

  /** Block n of a chain that finds one every 45 seconds. */
  function Beat(n: uint32, fee: Transaction): Block { Plain(n, 45 * n, 16, [fee]) }

  function Paced(n: uint32, fee: Transaction): (s: seq<Block>)
    ensures |s| == n && forall i :: 0 <= i < n ==> s[i] == Beat(i + 1, fee)
  {
    if n == 0 then [] else Paced(n - 1, fee) + [Beat(n, fee)]
  }

  /** The last block's difficulty can differ from the retargeted one: a hundred blocks
      in half the expected time are worth one more bit. */
  lemma RetargetMoves()
    ensures Retarget(16, 4500) == 17
  {
    assert Scaled(false, 4500, 1) == 9000;
    assert Scaled(false, 4500, 2) == 18000;
    assert Steps(4500, 9000, 1, 238) == 1;
  }

  /** The first height at which the difficulty moves is 300. */
  lemma PacedNext(n: uint32, fee: Transaction)
    requires 1 <= n <= 300
    ensures NextDifficulty(16, Paced(n, fee)) == Asked(Paced(n, fee)) == if n == 300 then 17 else 16
  {
    hide Retarget;
    var s := Paced(n, fee);
    if n == 300 {
      assert s[299].timestamp == 13500 && s[199].timestamp == 9000;
      RetargetMoves();
    }
  }

  /** The next block of the paced chain is accepted on every ledger, at the difficulty
      that is asked for. */
  lemma BeatPasses(n: uint32, fee: Transaction, a: Address, d: byte, m: Balances, known: set<Hash>)
    requires 1 <= n <= 300 && PaysFee(fee, a, 500000)
    ensures var b := Plain(n + 1, 45 * (n + 1), d, [fee]);
            Verdict(Flat(), b, Paced(n, fee), m, known, d, 45 * (n + 1)) == SUCCESS && Sorted(Flat(), b) == b
  {
    hide HeaderVerdict, Execute, MedianTime, Sorted;
    var b, s := Plain(n + 1, 45 * (n + 1), d, [fee]), Paced(n, fee);
    if n > 10 {
      MedianBound(s, 45 * (n + 1));
    }
    FlatPasses(b, s, d, 45 * (n + 1));
    FeeExecutes(Flat(), b, a, m, known, 500000);
  }

  method PacedChain(fee: Transaction, a: Address) returns (chain: BlockChain)
    requires PaysFee(fee, a, 500000)
    ensures fresh(chain) && fresh(chain.ledger) && fresh(chain.txdb) && fresh(chain.blockStore)
    ensures fresh(chain.totalWork) && chain.Valid() && chain.c == Flat() && chain.survivors == Paced(300, fee)
    ensures chain.difficulty == Asked(chain.survivors) == 17
  {
    hide Agrees, GenesisAccepted, AllStored, Work, Attempt, Sorted, Verdict, LastHash, Asked, NextDifficulty;
    var genesis := Beat(1, fee);
    FlatGenesis(genesis, a);
    var ok;
    chain, ok := Start(Flat(), genesis);
    assert [genesis] == Paced(1, fee);
    for i := 1 to 300
      invariant fresh(chain) && fresh(chain.ledger) && fresh(chain.txdb) && fresh(chain.blockStore)
      invariant fresh(chain.totalWork) && chain.Valid() && chain.c == Flat() && chain.survivors == Paced(i, fee)
      invariant chain.difficulty == if i == 300 then 17 else 16
    {
      BeatPasses(i, fee, a, 16, chain.ledger.wallets, chain.txdb.index.Keys);
      PacedNext(i + 1, fee);
      var status, sorted := chain.AddBlock(Beat(i + 1, fee), 45 * (i + 1));
    }
    PacedNext(300, fee);
  }

  /** It can come to that too: after 300 blocks the difficulty has just moved, and a block
      that is added and popped takes it back. */
  method RetargetRun(a: Address, signature: Signature, key: Key)
    returns (chain: BlockChain, first: Status, second: Status)
    ensures chain.Valid() && first == SUCCESS && second == SUCCESS
    ensures |chain.survivors| == 301 && !OnTrack(chain.survivors)
    ensures forall times: seq<uint64> | |times| == 301 :: Rebuild(chain.c, chain.survivors, times).None?
  {
    hide Agrees, GenesisAccepted, AllStored, Work, Sorted, Verdict, LastHash, Asked, OnTrack, Rebuild, Execute;
    var fee := Fee(a, 500000, 0, 0, signature, key);
    chain := PacedChain(fee, a);
    forall m: Balances, known: set<Hash>, d: byte
      ensures Verdict(Flat(), Plain(301, 13545, d, [fee]), Paced(300, fee), m, known, d, 13545) == SUCCESS
    {
      BeatPasses(300, fee, a, d, m, known);
    }
    first, second := LoseRetarget(chain, Plain(301, 13545, 17, [fee]), Plain(301, 13545, 16, [fee]), 13545);
  }
}
