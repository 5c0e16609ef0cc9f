/** How a rejected block can decide the fate of a later one: the empty wallets that it
    leaves behind, and what they do to a replay. */
module Leftovers {
  import opened Words
  import opened Records
  import opened Ledgers
  import opened BlockStores
  import opened Execution
  import opened MerkleSpec
  import opened ChainSpec
  import opened ChainReplays
  import opened BlockChains

  /** Block b, once sorted, is the fee for payee and then the transfer t, and nothing
      about it but the sender's wallet can be wrong. */
  ghost predicate FeeThen(c: Crypto, b: Block, s: seq<Block>, payee: Address, t: Transaction)
  {
    && |b.transactions| == 2 && Sorted(c, b).transactions[1] == t
    && PaysFee(Sorted(c, b).transactions[0], payee, MiningFee(|s|))
    && t.Transfer? && ContentHash(c, t) !in IndexOf(c, s) && SignatureValid(c, t)
    && (b.id > WALLET_SIG_FORK_BLOCK ==> SenderMatches(c, t))
  }

  predicate PaysFee(t: Transaction, payee: Address, amount: uint64) {
    t.Fee? && t.to == payee && t.amount == amount
  }

  lemma FeeThenExecutes(c: Crypto, b: Block, s: seq<Block>, payee: Address, t: Transaction, m: Balances)
    requires s != [] && b.id == |s| + 1 && FeeThen(c, b, s, payee, t) && t.from != payee
    ensures var r := Attempt(c, b, s, m, IndexOf(c, s).Keys);
            && (t.from !in m ==> r.status == SENDER_DOES_NOT_EXIST && r.ledger.Keys == m.Keys + {payee})
            && (t.from in m && m[t.from] >= Add64(t.amount, t.fee) ==> r.status == SUCCESS)
    ensures Miner(Sorted(c, b).transactions) == payee
  {
    hide ContentHash, IndexOf, MiningFee, SignatureValid, SortByHash, Credit, Debit, RunAll;
    var fee, txs, known := Sorted(c, b).transactions[0], Sorted(c, b).transactions, IndexOf(c, s).Keys;
    assert txs == [fee, t] && txs[1..] == [t] && txs[1..][1..] == [];
    assert Scan(c, [], known, b.id, true) == SUCCESS;
    assert Scan(c, [t], known, b.id, true) == SUCCESS;
    assert Scan(c, txs, known, b.id, false) == SUCCESS;
    assert FirstFee(txs) == fee;
    RunPair(c, txs, payee, m, MiningFee(|s|), b.id);
  }

  lemma CreditOther(m: Balances, payee: Address, amount: uint64, w: Address)
    requires w != payee
    ensures Credit(m, payee, amount).Keys == m.Keys + {payee}
    ensures w in m ==> Credit(m, payee, amount)[w] == m[w]
  {
  }

  lemma RunPair(c: Crypto, txs: seq<Transaction>, payee: Address, m: Balances, blockFee: uint64, id: uint32)
    requires |txs| == 2 && PaysFee(txs[0], payee, blockFee) && id != 1
    requires txs[1].Transfer? && SignatureValid(c, txs[1]) && txs[1].from != payee
    requires id > WALLET_SIG_FORK_BLOCK ==> SenderMatches(c, txs[1])
    ensures var r, t := RunAll(c, txs, payee, m, map[], blockFee, id), txs[1];
            && (t.from !in m ==> r.status == SENDER_DOES_NOT_EXIST && r.ledger.Keys == m.Keys + {payee})
            && (t.from in m && m[t.from] >= Add64(t.amount, t.fee) ==> r.status == SUCCESS)
  {
    hide Credit, Debit, ContentHash;
    var m1, d1 := Credit(m, payee, blockFee), Credit(map[], payee, blockFee);
    CreditOther(m, payee, blockFee, txs[1].from);
    assert RunAll(c, txs, payee, m, map[], blockFee, id) == RunAll(c, txs[1..], payee, m1, d1, blockFee, id);
    var rest := txs[1..];
    assert rest[0] == txs[1] && rest[1..] == [];
    if txs[1].from in m && m[txs[1].from] >= Add64(txs[1].amount, txs[1].fee) {
      assert UpdateStatus(c, rest[0], m1, blockFee, id) == SUCCESS;
      var m2, d2 := Apply(rest[0], payee, false, m1), Apply(rest[0], payee, false, d1);
      assert RunAll(c, [], payee, m2, d2, blockFee, id).status == SUCCESS;
    }
  }

  /** On any chain, a rejected block that pays its fee to a new wallet lets a next block
      pass whose transfer moves nothing from that wallet.  Without the rejected block the
      same block fails, and the chain that has accepted it cannot be replayed. */
  method Leftover(chain: BlockChain, rejected: Block, next: Block, w: Address, payee: Address,
                  poor: Transaction, nothing: Transaction, networkTime: uint64) returns (first: Status, second: Status)
    requires chain.Valid() && chain.survivors != []
    requires HeaderVerdict(chain.c, rejected, chain.survivors, chain.difficulty, networkTime) == SUCCESS
    requires HeaderVerdict(chain.c, next, chain.survivors, chain.difficulty, networkTime) == SUCCESS
    requires w !in chain.ledger.wallets && w !in NamedIn(chain.survivors) && w != payee
    requires FeeThen(chain.c, rejected, chain.survivors, w, poor)
    requires poor.from !in chain.ledger.wallets && poor.from != w
    requires FeeThen(chain.c, next, chain.survivors, payee, nothing)
    requires nothing.from == w && !NeedsBalance(nothing)
    modifies chain, chain.ledger, chain.txdb, chain.blockStore
    ensures chain.Valid() && first == SENDER_DOES_NOT_EXIST && second == SUCCESS
    ensures chain.survivors == old(chain.survivors) + [Sorted(chain.c, next)]
    ensures old(Verdict(chain.c, next, chain.survivors, chain.ledger.wallets, chain.txdb.index.Keys,
                        chain.difficulty, networkTime)) == SENDER_DOES_NOT_EXIST
    ensures Replay(chain.c, chain.survivors).None?
  {
    hide HeaderVerdict, FeeThen, Attempt, IndexOf, NamedIn, ChainLinked, NeedsBalance, Agrees, Sorted, Replay;
    hide GenesisAccepted, Work, AllStored;
    KnownIndex(chain.c, chain.survivors, chain.ledger.wallets, chain.txdb.index, chain.difficulty);
    NextId(chain.c, next, chain.survivors, chain.difficulty, networkTime);
    FeeThenExecutes(chain.c, next, chain.survivors, payee, nothing, chain.ledger.wallets);
    first := Reject(chain, rejected, w, poor, networkTime);
    second := AcceptNothing(chain, next, w, payee, nothing, networkTime);
  }

  method Reject(chain: BlockChain, b: Block, w: Address, poor: Transaction, networkTime: uint64)
    returns (status: Status)
    requires chain.Valid() && chain.survivors != []
    requires HeaderVerdict(chain.c, b, chain.survivors, chain.difficulty, networkTime) == SUCCESS
    requires FeeThen(chain.c, b, chain.survivors, w, poor)
    requires poor.from !in chain.ledger.wallets && poor.from != w
    modifies chain, chain.ledger, chain.txdb, chain.blockStore
    ensures chain.Valid() && chain.survivors == old(chain.survivors) && chain.difficulty == old(chain.difficulty)
    ensures status == SENDER_DOES_NOT_EXIST && w in chain.ledger.wallets
  {
    hide HeaderVerdict, FeeThen, Attempt, IndexOf, ChainLinked, Agrees, Sorted, AllStored, Work;
    hide GenesisAccepted;
    KnownIndex(chain.c, chain.survivors, chain.ledger.wallets, chain.txdb.index, chain.difficulty);
    NextId(chain.c, b, chain.survivors, chain.difficulty, networkTime);
    FeeThenExecutes(chain.c, b, chain.survivors, w, poor, chain.ledger.wallets);
    var sorted;
    status, sorted := chain.AddBlock(b, networkTime);
  }

  method AcceptNothing(chain: BlockChain, b: Block, w: Address, payee: Address, nothing: Transaction,
                       networkTime: uint64) returns (status: Status)
    requires chain.Valid() && chain.survivors != []
    requires HeaderVerdict(chain.c, b, chain.survivors, chain.difficulty, networkTime) == SUCCESS
    requires FeeThen(chain.c, b, chain.survivors, payee, nothing)
    requires w in chain.ledger.wallets && w !in NamedIn(chain.survivors) && w != payee
    requires nothing.from == w && !NeedsBalance(nothing)
    modifies chain, chain.ledger, chain.txdb, chain.blockStore
    ensures chain.Valid() && status == SUCCESS
    ensures chain.survivors == old(chain.survivors) + [Sorted(chain.c, b)]
    ensures Replay(chain.c, chain.survivors).None?
  {
    hide HeaderVerdict, FeeThen, Attempt, IndexOf, NamedIn, ChainLinked, NeedsBalance, Agrees, Sorted, AllStored, Work;
    hide GenesisAccepted, Replay;
    KnownIndex(chain.c, chain.survivors, chain.ledger.wallets, chain.txdb.index, chain.difficulty);
    NextId(chain.c, b, chain.survivors, chain.difficulty, networkTime);
    FeeThenExecutes(chain.c, b, chain.survivors, payee, nothing, chain.ledger.wallets);
    NothingIsCovered(nothing, chain.ledger.wallets);
    NotReplayable(chain.c, chain.survivors, b, payee, nothing);
    var sorted;
    status, sorted := chain.AddBlock(b, networkTime);
    NoReplay(chain.c, chain.survivors, chain.ledger.wallets, chain.txdb.index, chain.difficulty);
  }

  lemma NextId(c: Crypto, b: Block, s: seq<Block>, d: int, networkTime: uint64)
    requires HeaderVerdict(c, b, s, d, networkTime) == SUCCESS
    ensures b.id == |s| + 1
  {
    HeaderPassed(c, b, s, d, networkTime);
  }

  lemma NoReplay(c: Crypto, s: seq<Block>, m: Balances, index: map<Hash, uint32>, d: int)
    requires Agrees(c, s, m, index, d) && !Replayable(s)
    ensures Replay(c, s).None?
  {
    ReplayAgrees(c, s);
  }

  lemma NothingIsCovered(t: Transaction, m: Balances)
    requires !NeedsBalance(t)
    ensures Balance(m, t.from) >= Add64(t.amount, t.fee)
  {
  }

  lemma NotReplayable(c: Crypto, s: seq<Block>, b: Block, payee: Address, t: Transaction)
    requires s != [] && b.id == |s| + 1 && FeeThen(c, b, s, payee, t)
    requires !NeedsBalance(t) && t.from != payee && t.from !in NamedIn(s)
    ensures !Replayable(s + [Sorted(c, b)])
  {
    hide ContentHash, IndexOf, SortByHash, SignatureValid, NeedsBalance, NamedIn, MiningFee;
    InitOfSnoc(s, Sorted(c, b));
    var txs := Sorted(c, b).transactions;
    FeeThenExecutes(c, b, s, payee, t, map[]);
    NobodyNamed(txs, payee, NamedIn(s));
  }

  lemma NobodyNamed(txs: seq<Transaction>, payee: Address, named: set<Address>)
    requires |txs| == 2 && txs[0].Fee? && txs[0].to == payee
    requires txs[1].Transfer? && !NeedsBalance(txs[1]) && txs[1].from !in named + {payee}
    ensures !SendersNamed(txs, payee, false, named)
  {
    hide NeedsBalance;
    assert txs[1..][0] == txs[1];
    assert !SendersNamed(txs[1..], payee, false, named + {payee});
  }
}
