/** The header chain of a remote host: the source of trusted hashes for a sync. */
module HeaderChains {
  import opened Words
  import opened Power
  import opened Records
  import opened Limbs
  import opened Bigints
  import opened BlockStores
  import opened ChainSpec
  import opened Answers

  const BLOCK_HEADERS_PER_FETCH := 2000

  /** Each header names the hash of the one before and carries its proof of work. */
  ghost predicate HeadersLinked(c: Crypto, hs: seq<Block>) {
    hs != [] ==>
      && HeadersLinked(c, Init(hs))
      && Last(hs).lastBlockHash == LastHash(c, Init(hs))
      && NonceValid(c, Last(hs))
  }

  function Bares(hs: seq<Header>): (r: seq<Block>)
    ensures |r| == |hs| && forall i :: 0 <= i < |hs| ==> r[i] == BlockOf(hs[i], [])
  {
    if hs == [] then [] else [BlockOf(hs[0], [])] + Bares(hs[1..])
  }

  /** May this header follow the given ones, in a batch that starts with id first? */
  predicate Fits(c: Crypto, hs: seq<Block>, b: Block, first: nat, checkPoints: map<nat, Hash>) {
    && (first in checkPoints ==> b.GetHash(c) == checkPoints[first])
    && NonceValid(c, b) && b.lastBlockHash == LastHash(c, hs)
  }

  /** How reading headers ends: they are all there, one does not fit, or one has
      difficulty zero, whose power of two is never finished. */
  datatype Ending = Done | Misfit | Endless

  datatype Reading = Reading(end: Ending, headers: seq<Block>)

  function Read(c: Crypto, hs: seq<Block>, bs: seq<Block>, first: nat, checkPoints: map<nat, Hash>): Reading
    decreases |bs|
  {
    if bs == [] then Reading(Done, hs)
    else if !Fits(c, hs, bs[0], first, checkPoints) then Reading(Misfit, hs)
    else if bs[0].Difficulty() == 0 then Reading(Endless, hs)
    else Read(c, hs + [bs[0]], bs[1..], first, checkPoints)
  }

  function HashesOf(c: Crypto, hs: seq<Block>): (r: seq<Hash>)
    ensures |r| == |hs|
    ensures forall i :: 0 <= i < |hs| ==> r[i] == hs[i].GetHash(c)
  {
    if hs == [] then [] else HashesOf(c, Init(hs)) + [Last(hs).GetHash(c)]
  }

  /** What the chain answers for block `blockId`, counted from one.  The bound is off
      by one: its own last block gets the null hash. */
  function TrustedHash(hashes: seq<Hash>, blockId: nat): Hash {
    if blockId >= |hashes| || blockId == 0 then NULL_HASH else hashes[blockId - 1]
  }

  type Fetch = (nat, nat) -> Option<seq<Header>>

  function LastOfBatch(i: nat, target: nat): nat {
    if target <= i + BLOCK_HEADERS_PER_FETCH - 1 then target else i + BLOCK_HEADERS_PER_FETCH - 1
  }

  /** What a load started on hs ends with.  Nothing is kept if an answer fails or does
      not fit. */
  function Loaded(c: Crypto, hs: seq<Block>, i: nat, target: nat, fetch: Fetch, checkPoints: map<nat, Hash>): Reading
    decreases target + BLOCK_HEADERS_PER_FETCH - i
  {
    if i > target then Reading(Done, hs)
    else
      var batch := fetch(i, LastOfBatch(i, target));
      if batch.None? then Reading(Misfit, [])
      else
        var r := Read(c, hs, Bares(batch.value), i, checkPoints);
        if r.end.Misfit? then Reading(Misfit, [])
        else if r.end.Endless? then r
        else Loaded(c, r.headers, i + BLOCK_HEADERS_PER_FETCH, target, fetch, checkPoints)
  }

  // ----- how a load ends, read off the answers of the host -----

  /** Header p names the hash of the one before it and carries its proof of work. */
  predicate Proven(c: Crypto, hs: seq<Block>, p: nat)
    requires p < |hs|
  {
    var b := hs[p];
    && b.lastBlockHash == (if p == 0 then NULL_HASH else hs[p - 1].GetHash(c))
    && (b.lastBlockHash == NULL_HASH
        || FromBigEndian(c.proofHash(b.GetHash(c), b.nonce)) < Pow(2, 256 - b.difficulty % 256))
  }

  /** The same, and it has the hash of the checkpoint that its batch starts on, if any. */
  predicate Sits(c: Crypto, hs: seq<Block>, p: nat, first: nat, checkPoints: map<nat, Hash>)
    requires p < |hs|
  {
    Proven(c, hs, p) && (first in checkPoints ==> hs[p].GetHash(c) == checkPoints[first])
  }

  predicate Good(c: Crypto, hs: seq<Block>, lo: nat, hi: nat, first: nat, checkPoints: map<nat, Hash>)
    requires hi <= |hs|
  {
    forall p :: lo <= p < hi ==> Sits(c, hs, p, first, checkPoints) && hs[p].difficulty % 256 != 0
  }

  /** The requests of a load behind n headers: two thousand at a time, up to the target. */
  function Requests(n: nat, target: nat): nat {
    if target <= n then 0 else (target - n + 1999) / 2000
  }

  function Request(n: nat, target: nat, fetch: Fetch, q: nat): Option<seq<Header>> {
    fetch(n + 1 + 2000 * q, if target <= n + 2000 * (q + 1) then target else n + 2000 * (q + 1))
  }

  /** What the first q requests bring. */
  function Brought(n: nat, target: nat, fetch: Fetch, q: nat): seq<Block> {
    if q == 0 then []
    else
      var answer := Request(n, target, fetch, q - 1);
      Brought(n, target, fetch, q - 1) + (if answer.Some? then Bares(answer.value) else [])
  }

  /** The chain s with what the first q requests bring. */
  function Grown(s: seq<Block>, target: nat, fetch: Fetch, q: nat): seq<Block> {
    s + Brought(|s|, target, fetch, q)
  }

  /** Request q is answered with headers that are all good. */
  predicate WellAnswered(c: Crypto, s: seq<Block>, target: nat, fetch: Fetch, checkPoints: map<nat, Hash>, q: nat) {
    var before, after := Grown(s, target, fetch, q), Grown(s, target, fetch, q + 1);
    Request(|s|, target, fetch, q).Some? && Good(c, after, |before|, |after|, |s| + 1 + 2000 * q, checkPoints)
  }

  predicate WellAnsweredUpTo(c: Crypto, s: seq<Block>, target: nat, fetch: Fetch, checkPoints: map<nat, Hash>, q: nat) {
    forall k :: 0 <= k < q ==> WellAnswered(c, s, target, fetch, checkPoints, k)
  }

  lemma WellAnsweredStep(c: Crypto, s: seq<Block>, target: nat, fetch: Fetch, checkPoints: map<nat, Hash>, q: nat)
    requires q > 0
    ensures WellAnsweredUpTo(c, s, target, fetch, checkPoints, q)
            <==> WellAnsweredUpTo(c, s, target, fetch, checkPoints, q - 1)
                 && WellAnswered(c, s, target, fetch, checkPoints, q - 1)
  {
    hide WellAnswered;
  }

  /** All requests are answered with good headers. */
  predicate Complete(c: Crypto, s: seq<Block>, target: nat, fetch: Fetch, checkPoints: map<nat, Hash>) {
    WellAnsweredUpTo(c, s, target, fetch, checkPoints, Requests(|s|, target))
  }

  /** Request q comes to header p of the grown chain, after good ones only. */
  predicate Reaches(c: Crypto, s: seq<Block>, target: nat, fetch: Fetch, checkPoints: map<nat, Hash>, q: nat, p: nat) {
    var before, after := Grown(s, target, fetch, q), Grown(s, target, fetch, q + 1);
    && q < Requests(|s|, target) && WellAnsweredUpTo(c, s, target, fetch, checkPoints, q)
    && Request(|s|, target, fetch, q).Some? && |before| <= p < |after|
    && Good(c, after, |before|, p, |s| + 1 + 2000 * q, checkPoints)
  }

  /** Before any header of difficulty zero a request fails or brings a header that does not
      sit. */
  ghost predicate Broken(c: Crypto, s: seq<Block>, target: nat, fetch: Fetch, checkPoints: map<nat, Hash>) {
    || (exists q :: 0 <= q < Requests(|s|, target) && WellAnsweredUpTo(c, s, target, fetch, checkPoints, q)
                    && Request(|s|, target, fetch, q).None?)
    || (exists q: nat, p: nat :: Reaches(c, s, target, fetch, checkPoints, q, p)
                    && !Sits(c, Grown(s, target, fetch, q + 1), p, |s| + 1 + 2000 * q, checkPoints))
  }

  /** A header of difficulty zero comes first. */
  ghost predicate Stuck(c: Crypto, s: seq<Block>, target: nat, fetch: Fetch, checkPoints: map<nat, Hash>) {
    exists q: nat, p: nat :: Reaches(c, s, target, fetch, checkPoints, q, p)
                    && Sits(c, Grown(s, target, fetch, q + 1), p, |s| + 1 + 2000 * q, checkPoints)
                    && Grown(s, target, fetch, q + 1)[p].difficulty % 256 == 0
  }

  lemma SitsIsFits(c: Crypto, hs: seq<Block>, p: nat, first: nat, checkPoints: map<nat, Hash>)
    requires p < |hs|
    ensures Sits(c, hs, p, first, checkPoints) <==> Fits(c, hs[..p], hs[p], first, checkPoints)
  {
    hide NonceValid, FromBigEndian, Pow, Block.GetHash;
    NonceIsWork(c, hs[p]);
  }

  /** Reading goes on as long as the headers are good. */
  lemma {:induction false} ReadThrough(c: Crypto, hs: seq<Block>, lo: nat, p: nat, first: nat,
                                       checkPoints: map<nat, Hash>)
    requires lo <= p <= |hs| && Good(c, hs, lo, p, first, checkPoints)
    ensures Read(c, hs[..lo], hs[lo..], first, checkPoints) == Read(c, hs[..p], hs[p..], first, checkPoints)
    decreases p - lo
  {
    if lo == p {
    } else {
      hide Fits, Sits, Block.GetHash;
      SitsIsFits(c, hs, lo, first, checkPoints);
      assert hs[lo..][0] == hs[lo] && hs[lo..][1..] == hs[lo + 1..] && hs[..lo] + [hs[lo]] == hs[..lo + 1];
      ReadThrough(c, hs, lo + 1, p, first, checkPoints);
    }
  }

  /** And it ends with the first one that is not. */
  lemma ReadEnds(c: Crypto, hs: seq<Block>, lo: nat, p: nat, first: nat, checkPoints: map<nat, Hash>)
    requires lo <= p < |hs| && Good(c, hs, lo, p, first, checkPoints)
    ensures var r := Read(c, hs[..lo], hs[lo..], first, checkPoints);
            && (!Sits(c, hs, p, first, checkPoints) ==> r.end == Misfit)
            && (Sits(c, hs, p, first, checkPoints) && hs[p].difficulty % 256 == 0 ==> r.end == Endless)
  {
    hide Fits, Sits;
    ReadThrough(c, hs, lo, p, first, checkPoints);
    SitsIsFits(c, hs, p, first, checkPoints);
    assert hs[p..][0] == hs[p];
  }

  lemma GrownNone(s: seq<Block>, target: nat, fetch: Fetch)
    ensures Grown(s, target, fetch, 0) == s
  {
  }

  lemma GrownNext(s: seq<Block>, target: nat, fetch: Fetch, q: nat)
    requires Request(|s|, target, fetch, q).Some?
    ensures var before, after := Grown(s, target, fetch, q), Grown(s, target, fetch, q + 1);
            && after == before + Bares(Request(|s|, target, fetch, q).value)
            && after[..|before|] == before && after[|before|..] == Bares(Request(|s|, target, fetch, q).value)
  {
  }

  lemma LoadNext(c: Crypto, s: seq<Block>, target: nat, fetch: Fetch, checkPoints: map<nat, Hash>, q: nat)
    requires q < Requests(|s|, target) && WellAnswered(c, s, target, fetch, checkPoints, q)
    ensures Loaded(c, Grown(s, target, fetch, q), |s| + 1 + 2000 * q, target, fetch, checkPoints)
            == Loaded(c, Grown(s, target, fetch, q + 1), |s| + 1 + 2000 * (q + 1), target, fetch, checkPoints)
  {
    hide Good, Read, Bares, Requests, Grown;
    var before, after := Grown(s, target, fetch, q), Grown(s, target, fetch, q + 1);
    GrownNext(s, target, fetch, q);
    ReadThrough(c, after, |before|, |after|, |s| + 1 + 2000 * q, checkPoints);
    ReadNothing(c, after, |s| + 1 + 2000 * q, checkPoints);
    RequestsInRange(|s|, target, q);
  }

  /** A load goes on as long as the requests are answered with good headers. */
  lemma {:induction false} LoadThrough(c: Crypto, s: seq<Block>, target: nat, fetch: Fetch, checkPoints: map<nat, Hash>,
                                       q: nat)
    requires q <= Requests(|s|, target) && WellAnsweredUpTo(c, s, target, fetch, checkPoints, q)
    ensures Loaded(c, s, |s| + 1, target, fetch, checkPoints)
            == Loaded(c, Grown(s, target, fetch, q), |s| + 1 + 2000 * q, target, fetch, checkPoints)
  {
    hide *;
    if q == 0 {
      GrownNone(s, target, fetch);
    } else {
      WellAnsweredStep(c, s, target, fetch, checkPoints, q);
      LoadThrough(c, s, target, fetch, checkPoints, q - 1);
      LoadNext(c, s, target, fetch, checkPoints, q - 1);
    }
  }

  lemma ReadNothing(c: Crypto, hs: seq<Block>, first: nat, checkPoints: map<nat, Hash>)
    ensures Read(c, hs[..|hs|], hs[|hs|..], first, checkPoints) == Reading(Done, hs)
  {
    assert hs[..|hs|] == hs && hs[|hs|..] == [];
  }

  lemma RequestsInRange(n: nat, target: nat, q: nat)
    ensures q < Requests(n, target) <==> n + 1 + 2000 * q <= target
  {
  }

  /** The three ways a load ends, and there is no other. */
  lemma LoadEnds(c: Crypto, s: seq<Block>, target: nat, fetch: Fetch, checkPoints: map<nat, Hash>)
    ensures var r := Loaded(c, s, |s| + 1, target, fetch, checkPoints);
            && (Complete(c, s, target, fetch, checkPoints) ==>
                  r == Reading(Done, Grown(s, target, fetch, Requests(|s|, target))))
            && (Broken(c, s, target, fetch, checkPoints) ==> r == Reading(Misfit, []))
            && (Stuck(c, s, target, fetch, checkPoints) ==> r.end == Endless)
    ensures || Complete(c, s, target, fetch, checkPoints)
            || Broken(c, s, target, fetch, checkPoints) || Stuck(c, s, target, fetch, checkPoints)
  {
    hide Loaded, Good, Sits, Grown, WellAnswered, WellAnsweredUpTo, Request, Requests;
    var last := Requests(|s|, target);
    if Complete(c, s, target, fetch, checkPoints) {
      CompleteEnds(c, s, target, fetch, checkPoints);
    }
    if q :| && 0 <= q < last && WellAnsweredUpTo(c, s, target, fetch, checkPoints, q)
            && Request(|s|, target, fetch, q).None? {
      FailureEnds(c, s, target, fetch, checkPoints, q);
    }
    if q: nat, p: nat :| Reaches(c, s, target, fetch, checkPoints, q, p)
                         && !Sits(c, Grown(s, target, fetch, q + 1), p, |s| + 1 + 2000 * q, checkPoints) {
      HeaderEnds(c, s, target, fetch, checkPoints, q, p);
    }
    if q: nat, p: nat :| Reaches(c, s, target, fetch, checkPoints, q, p)
                         && Sits(c, Grown(s, target, fetch, q + 1), p, |s| + 1 + 2000 * q, checkPoints)
                         && Grown(s, target, fetch, q + 1)[p].difficulty % 256 == 0 {
      HeaderEnds(c, s, target, fetch, checkPoints, q, p);
    }
    SomeEnd(c, s, target, fetch, checkPoints, last);
  }

  lemma CompleteEnds(c: Crypto, s: seq<Block>, target: nat, fetch: Fetch, checkPoints: map<nat, Hash>)
    requires Complete(c, s, target, fetch, checkPoints)
    ensures Loaded(c, s, |s| + 1, target, fetch, checkPoints)
            == Reading(Done, Grown(s, target, fetch, Requests(|s|, target)))
  {
    hide WellAnsweredUpTo, Grown, Requests;
    LoadThrough(c, s, target, fetch, checkPoints, Requests(|s|, target));
    RequestsInRange(|s|, target, Requests(|s|, target));
  }

  lemma FailureEnds(c: Crypto, s: seq<Block>, target: nat, fetch: Fetch, checkPoints: map<nat, Hash>, q: nat)
    requires q < Requests(|s|, target) && WellAnsweredUpTo(c, s, target, fetch, checkPoints, q)
    requires Request(|s|, target, fetch, q).None?
    ensures Loaded(c, s, |s| + 1, target, fetch, checkPoints) == Reading(Misfit, [])
  {
    hide WellAnsweredUpTo, Grown, Requests;
    LoadThrough(c, s, target, fetch, checkPoints, q);
    RequestsInRange(|s|, target, q);
  }

  lemma HeaderEnds(c: Crypto, s: seq<Block>, target: nat, fetch: Fetch, checkPoints: map<nat, Hash>, q: nat, p: nat)
    requires Reaches(c, s, target, fetch, checkPoints, q, p)
    ensures var r, hs := Loaded(c, s, |s| + 1, target, fetch, checkPoints), Grown(s, target, fetch, q + 1);
            && (!Sits(c, hs, p, |s| + 1 + 2000 * q, checkPoints) ==> r == Reading(Misfit, []))
            && (Sits(c, hs, p, |s| + 1 + 2000 * q, checkPoints) && hs[p].difficulty % 256 == 0 ==> r.end == Endless)
  {
    hide WellAnsweredUpTo, Grown, Requests, Good, Sits, Read;
    LoadThrough(c, s, target, fetch, checkPoints, q);
    RequestsInRange(|s|, target, q);
    GrownNext(s, target, fetch, q);
    ReadEnds(c, Grown(s, target, fetch, q + 1), |Grown(s, target, fetch, q)|, p, |s| + 1 + 2000 * q, checkPoints);
  }

  lemma BadAnswer(c: Crypto, s: seq<Block>, target: nat, fetch: Fetch, checkPoints: map<nat, Hash>, q: nat)
    requires q < Requests(|s|, target) && WellAnsweredUpTo(c, s, target, fetch, checkPoints, q)
    requires !WellAnswered(c, s, target, fetch, checkPoints, q)
    ensures Broken(c, s, target, fetch, checkPoints) || Stuck(c, s, target, fetch, checkPoints)
  {
    hide Good, Sits, Grown, Request, Requests, WellAnsweredUpTo;
    if Request(|s|, target, fetch, q).Some? {
      var before, after := Grown(s, target, fetch, q), Grown(s, target, fetch, q + 1);
      GrownNext(s, target, fetch, q);
      var p := FirstBad(c, after, |before|, |after|, |s| + 1 + 2000 * q, checkPoints);
      assert Reaches(c, s, target, fetch, checkPoints, q, p);
    }
  }

  lemma {:induction false} SomeEnd(c: Crypto, s: seq<Block>, target: nat, fetch: Fetch, checkPoints: map<nat, Hash>,
                                   q: nat)
    requires q <= Requests(|s|, target)
    ensures || WellAnsweredUpTo(c, s, target, fetch, checkPoints, q)
            || Broken(c, s, target, fetch, checkPoints) || Stuck(c, s, target, fetch, checkPoints)
  {
    if q == 0 {
    } else {
      hide *;
      WellAnsweredStep(c, s, target, fetch, checkPoints, q);
      SomeEnd(c, s, target, fetch, checkPoints, q - 1);
      if WellAnsweredUpTo(c, s, target, fetch, checkPoints, q - 1)
         && !WellAnswered(c, s, target, fetch, checkPoints, q - 1) {
        BadAnswer(c, s, target, fetch, checkPoints, q - 1);
      }
    }
  }

  lemma {:induction false} FirstBad(c: Crypto, hs: seq<Block>, lo: nat, hi: nat, first: nat,
                                    checkPoints: map<nat, Hash>)
    returns (p: nat)
    requires lo <= hi <= |hs| && !Good(c, hs, lo, hi, first, checkPoints)
    ensures lo <= p < hi && Good(c, hs, lo, p, first, checkPoints)
    ensures !Sits(c, hs, p, first, checkPoints) || hs[p].difficulty % 256 == 0
  {
    hide Sits;
    if Good(c, hs, lo, hi - 1, first, checkPoints) {
      p := hi - 1;
    } else {
      p := FirstBad(c, hs, lo, hi - 1, first, checkPoints);
    }
  }

  lemma {:induction false} AllProven(c: Crypto, hs: seq<Block>)
    requires HeadersLinked(c, hs)
    ensures forall p :: 0 <= p < |hs| ==> Proven(c, hs, p)
  {
    hide NonceValid, FromBigEndian, Pow, Block.GetHash, HeadersLinked;
    forall p | 0 <= p < |hs|
      ensures Proven(c, hs, p)
    {
      LinkedAt(c, hs, p);
      NonceIsWork(c, hs[p]);
    }
  }

  class HeaderChain {
    const c: Crypto
    const checkPoints: map<nat, Hash>
    var failed: bool
    var totalWork: Bigint
    var chainLength: nat
    var blockHashes: seq<Hash>
    ghost var headers: seq<Block>   // the headers behind the hashes

    constructor (c: Crypto, checkPoints: map<nat, Hash>)
      ensures Valid() && headers == [] && fresh(totalWork)
      ensures this.c == c && this.checkPoints == checkPoints
    {
      this.c, this.checkPoints := c, checkPoints;
      failed, chainLength, blockHashes, headers := false, 0, [], [];
      totalWork := new Bigint(0);
      new;
      totalWork.Assign(0);
      ZeroLimb();
    }

    ghost predicate WorkIs(work: Bigint, s: seq<Block>)
      reads work
    {
      && work.positive && work.skip == 0 && Canonical(work.number)
      && Val(work.number) == Work(s)
    }

    ghost predicate Valid()
      reads this, totalWork
    {
      && blockHashes == HashesOf(c, headers) && HeadersLinked(c, headers)
      && chainLength == |headers| && WorkIs(totalWork, headers)
    }

    method GetHash(blockId: nat) returns (h: Hash)
      requires blockId >= 1 || blockHashes == []
      ensures h == TrustedHash(blockHashes, blockId)
    {
      if blockId >= |blockHashes| {
        return NULL_HASH;
      }
      return blockHashes[blockId - 1];
    }

    /** Has the host any work to show?  The total is never the empty vector that it is
        compared with, so zero work passes too. */
    method IsValid() returns (ok: bool)
      requires Valid()
      ensures ok <==> !failed
    {
      var zero := new Bigint(0);
      var order := totalWork.Compare(zero);
      assert zero.number == [] && Val(zero.number) == 0;
      assert Val(totalWork.number) == 0 ==> totalWork.number == [0] by {
        if Val(totalWork.number) == 0 {
          ZeroLimb();
          CanonicalUnique(totalWork.number, [0]);
        }
      }
      ok := !failed && order == 1;
    }

    method Reset()
      requires totalWork.positive && totalWork.skip == 0
      modifies this, totalWork
      ensures Valid() && headers == [] && !failed && totalWork == old(totalWork) && Val(totalWork.number) == 0
    {
      failed := false;
      totalWork.Assign(0);
      chainLength := 0;
      blockHashes := [];
      headers := [];
      ZeroLimb();
    }

    /** The chain grown by one header, if the header fits.  Its id is not compared with
        the checkpoints: the first id of its batch is. */
    method Append(block: Block, first: nat, work: Bigint) returns (end: Ending, newWork: Bigint)
      requires blockHashes == HashesOf(c, headers) && HeadersLinked(c, headers) && WorkIs(work, headers)
      modifies this`blockHashes, this`headers
      ensures var fits := Fits(c, old(headers), block, first, checkPoints);
              end == if !fits then Misfit else if block.Difficulty() == 0 then Endless else Done
      ensures headers == if end.Done? then old(headers) + [block] else old(headers)
      ensures !end.Endless? ==> blockHashes == HashesOf(c, headers)
      ensures HeadersLinked(c, headers) && WorkIs(newWork, headers) && (newWork == work || fresh(newWork))
    {
      hide NonceValid, Val, Canonical, Block.GetHash;
      newWork := work;
      if first in checkPoints && block.GetHash(c) != checkPoints[first] {
        return Misfit, newWork;
      }
      if !NonceValid(c, block) {
        return Misfit, newWork;
      }
      LastOfHashes(c, headers);
      var lastHash := if blockHashes == [] then NULL_HASH else blockHashes[|blockHashes| - 1];
      if block.lastBlockHash != lastHash {
        return Misfit, newWork;
      }
      InitOfSnoc(headers, block);
      blockHashes := blockHashes + [block.GetHash(c)];
      if block.Difficulty() == 0 {
        return Endless, newWork;
      }
      newWork := AddWork(newWork, block.Difficulty());
      headers := headers + [block];
      end := Done;
    }

    /** Appends the headers of one answer, up to the first that does not fit. */
    method LoadBatch(batch: seq<Header>, first: nat, work: Bigint) returns (end: Ending, newWork: Bigint)
      requires blockHashes == HashesOf(c, headers) && HeadersLinked(c, headers) && WorkIs(work, headers)
      modifies this`blockHashes, this`headers
      ensures Reading(end, headers) == Read(c, old(headers), Bares(batch), first, checkPoints)
      ensures !end.Endless? ==> blockHashes == HashesOf(c, headers)
      ensures HeadersLinked(c, headers) && WorkIs(newWork, headers) && (newWork == work || fresh(newWork))
    {
      hide NonceValid, Fits, HeadersLinked, HashesOf, WorkIs, BlockOf, Bares, LastHash, Block.Difficulty;
      newWork := work;
      ghost var blocks := Bares(batch);
      assert blocks[0..] == blocks;
      for k := 0 to |batch|
        invariant blockHashes == HashesOf(c, headers) && HeadersLinked(c, headers) && WorkIs(newWork, headers)
        invariant Read(c, old(headers), blocks, first, checkPoints) == Read(c, headers, blocks[k..], first, checkPoints)
        invariant newWork == work || fresh(newWork)
      {
        assert blocks[k..][1..] == blocks[k + 1..];
        end, newWork := Append(BlockOf(batch[k], []), first, newWork);
        if !end.Done? {
          return;
        }
      }
      end := Done;
    }

    /** Extends the chain to the host's length, or gives it up, or never returns. */
    method Load(target: Option<nat>, fetch: Fetch) returns (ended: bool)
      requires Valid()
      modifies this, totalWork
      ensures ended ==> Valid()
      ensures target.None? ==> ended && failed && headers == old(headers)
      ensures target.Some? ==>
                var r := Loaded(c, old(headers), |old(headers)| + 1, target.value, fetch, checkPoints);
                && (ended <==> !r.end.Endless?)
                && (ended ==> !failed && headers == r.headers)
      ensures ended ==> forall p :: 0 <= p < |headers| ==> Proven(c, headers, p)
      ensures target.Some? ==>
                var s := old(headers);
                && (Complete(c, s, target.value, fetch, checkPoints) ==>
                      ended && headers == s + Brought(|s|, target.value, fetch, Requests(|s|, target.value)))
                && (Broken(c, s, target.value, fetch, checkPoints) ==>
                      ended && headers == [] && Val(totalWork.number) == 0)
                && (Stuck(c, s, target.value, fetch, checkPoints) ==> !ended)
                && (|| Complete(c, s, target.value, fetch, checkPoints)
                    || Broken(c, s, target.value, fetch, checkPoints) || Stuck(c, s, target.value, fetch, checkPoints))
    {
      hide HeadersLinked, HashesOf, Read, Bares, BlockOf, Val, Canonical, Work, Block.Difficulty;
      hide Complete, Broken, Stuck, Brought, Requests, Proven;
      ended := true;
      AllProven(c, headers);
      if target.None? {
        failed := true;
        return;
      }
      LoadEnds(c, headers, target.value, fetch, checkPoints);
      var work := totalWork;
      var i := |blockHashes| + 1;
      while i <= target.value
        invariant blockHashes == HashesOf(c, headers) && HeadersLinked(c, headers)
        invariant totalWork == old(totalWork) && totalWork.positive && totalWork.skip == 0
        invariant WorkIs(work, headers) && (work == totalWork || fresh(work))
        invariant Loaded(c, old(headers), |old(headers)| + 1, target.value, fetch, checkPoints)
                  == Loaded(c, headers, i, target.value, fetch, checkPoints)
        decreases target.value + BLOCK_HEADERS_PER_FETCH - i
      {
        var batch := fetch(i, LastOfBatch(i, target.value));
        if batch.None? {
          Reset();
          return;
        }
        var end;
        end, work := LoadBatch(batch.value, i, work);
        if end.Endless? {
          return false;
        }
        if end.Misfit? {
          Reset();
          return;
        }
        i := i + BLOCK_HEADERS_PER_FETCH;
      }
      chainLength := |blockHashes|;
      totalWork := work;
      failed := false;
      AllProven(c, headers);
    }
  }

  /** The headers i to j have the hash of the checkpoint that their batch starts on. */
  predicate Hashed(c: Crypto, hs: seq<Block>, i: nat, j: nat, first: nat, checkPoints: map<nat, Hash>)
    requires j <= |hs|
  {
    first in checkPoints ==> forall k :: i <= k < j ==> hs[k].GetHash(c) == checkPoints[first]
  }

  predicate NoneIsZero(hs: seq<Block>, i: nat, j: nat)
    requires j <= |hs|
  {
    forall k :: i <= k < j ==> hs[k].Difficulty() != 0
  }

  lemma HashedStep(c: Crypto, hs: seq<Block>, i: nat, j: nat, first: nat, checkPoints: map<nat, Hash>)
    requires i < j <= |hs|
    ensures Hashed(c, hs, i, j, first, checkPoints)
            <==> Hashed(c, hs, i, i + 1, first, checkPoints) && Hashed(c, hs, i + 1, j, first, checkPoints)
    ensures NoneIsZero(hs, i, j) <==> NoneIsZero(hs, i, i + 1) && NoneIsZero(hs, i + 1, j)
  {
  }

  lemma LinkedStep(c: Crypto, hs: seq<Block>, i: nat, j: nat, first: nat, checkPoints: map<nat, Hash>)
    requires HeadersLinked(c, hs) && i < j <= |hs|
    ensures Read(c, hs[..i], hs[i..j], first, checkPoints)
            == if !Hashed(c, hs, i, i + 1, first, checkPoints) then Reading(Misfit, hs[..i])
               else if !NoneIsZero(hs, i, i + 1) then Reading(Endless, hs[..i])
               else Read(c, hs[..i + 1], hs[i + 1..j], first, checkPoints)
  {
    hide NonceValid, HeadersLinked, LastHash, Block.GetHash, Block.Difficulty;
    LinkedAt(c, hs, i);
    assert hs[..i] + [hs[i]] == hs[..i + 1] && hs[i..j][0] == hs[i] && hs[i..j][1..] == hs[i + 1..j];
  }

  /** How reading a stretch of a linked chain ends. */
  lemma {:induction false} LinkedReads(c: Crypto, hs: seq<Block>, i: nat, j: nat, first: nat,
                                       checkPoints: map<nat, Hash>)
    requires HeadersLinked(c, hs) && i <= j <= |hs|
    ensures var r := Read(c, hs[..i], hs[i..j], first, checkPoints);
            && (r.end.Done? <==> Hashed(c, hs, i, j, first, checkPoints) && NoneIsZero(hs, i, j))
            && (r.end.Done? ==> r.headers == hs[..j])
            && (NoneIsZero(hs, i, j) ==> !r.end.Endless?)
            && (Hashed(c, hs, i, j, first, checkPoints) ==> !r.end.Misfit?)
    decreases j - i
  {
    if i == j {
    } else {
      hide HeadersLinked, Hashed, NoneIsZero, Read;
      LinkedReads(c, hs, i + 1, j, first, checkPoints);
      LinkedStep(c, hs, i, j, first, checkPoints);
      HashedStep(c, hs, i, j, first, checkPoints);
    }
  }

  lemma {:induction false} LinkedAt(c: Crypto, hs: seq<Block>, i: nat)
    requires HeadersLinked(c, hs) && i < |hs|
    ensures hs[i].lastBlockHash == LastHash(c, hs[..i]) && NonceValid(c, hs[i])
  {
    if i == |hs| - 1 {
      assert hs[..i] == Init(hs);
    } else {
      LinkedAt(c, Init(hs), i);
      assert Init(hs)[..i] == hs[..i];
    }
  }

  /** The fetch answers with the headers of hs. */
  ghost predicate Serves(fetch: Fetch, hs: seq<Block>) {
    forall i: nat, j: nat {:trigger fetch(i, j)} | 1 <= i <= j <= |hs| ::
      fetch(i, j).Some? && Bares(fetch(i, j).value) == hs[i - 1..j]
  }

  /** The first id of the batch that brings header k, in a load that starts behind n. */
  function BatchStart(n: nat, k: nat): nat
    requires n <= k
  {
    k + 1 - (k - n) % BLOCK_HEADERS_PER_FETCH
  }

  /** Each header from k on whose batch starts on a checkpoint has the hash of that. */
  predicate AllHashed(c: Crypto, hs: seq<Block>, n: nat, k: nat, checkPoints: map<nat, Hash>)
    requires n <= k
  {
    forall i :: k <= i < |hs| && BatchStart(n, i) in checkPoints ==> hs[i].GetHash(c) == checkPoints[BatchStart(n, i)]
  }

  /** A host with a linked chain is loaded in full, from any prefix of it, exactly if
      every batch that starts on a checkpoint has the hash of that throughout, and no
      header has difficulty zero. */
  lemma HonestHostLoads(c: Crypto, hs: seq<Block>, n: nat, fetch: Fetch, checkPoints: map<nat, Hash>)
    requires HeadersLinked(c, hs) && Serves(fetch, hs) && n <= |hs|
    ensures var r := Loaded(c, hs[..n], n + 1, |hs|, fetch, checkPoints);
            && (r.end.Done? <==> AllHashed(c, hs, n, n, checkPoints) && NoneIsZero(hs, n, |hs|))
            && (r.end.Done? ==> r.headers == hs)
            && (NoneIsZero(hs, n, |hs|) ==> !r.end.Endless?)
            && (AllHashed(c, hs, n, n, checkPoints) ==> !r.end.Misfit?)
  {
    HonestFrom(c, hs, n, n, fetch, checkPoints);
  }

  lemma HonestStep(c: Crypto, hs: seq<Block>, k: nat, fetch: Fetch, checkPoints: map<nat, Hash>)
    requires Serves(fetch, hs) && k < |hs|
    ensures var end := LastOfBatch(k + 1, |hs|);
            var r := Read(c, hs[..k], hs[k..end], k + 1, checkPoints);
            && k <= end <= |hs| && end == Least(k + BLOCK_HEADERS_PER_FETCH, |hs|)
            && Loaded(c, hs[..k], k + 1, |hs|, fetch, checkPoints)
               == if r.end.Misfit? then Reading(Misfit, [])
                  else if r.end.Endless? then r
                  else Loaded(c, r.headers, k + BLOCK_HEADERS_PER_FETCH + 1, |hs|, fetch, checkPoints)
  {
    hide Read;
  }

  lemma {:induction false} HonestFrom(c: Crypto, hs: seq<Block>, n: nat, k: nat, fetch: Fetch,
                                      checkPoints: map<nat, Hash>)
    requires HeadersLinked(c, hs) && Serves(fetch, hs) && n <= k && n <= |hs|
    requires (k - n) % BLOCK_HEADERS_PER_FETCH == 0
    ensures var r := Loaded(c, hs[..Least(k, |hs|)], k + 1, |hs|, fetch, checkPoints);
            && (r.end.Done? <==> AllHashed(c, hs, n, k, checkPoints) && NoneIsZero(hs, k, |hs|))
            && (r.end.Done? ==> r.headers == hs)
            && (NoneIsZero(hs, k, |hs|) ==> !r.end.Endless?)
            && (AllHashed(c, hs, n, k, checkPoints) ==> !r.end.Misfit?)
    decreases |hs| + BLOCK_HEADERS_PER_FETCH - k
  {
    hide HeadersLinked, Read;
    if k >= |hs| {
      assert hs[..|hs|] == hs;
    } else {
      hide Hashed, AllHashed, NoneIsZero, Loaded, Serves;
      var end, later := LastOfBatch(k + 1, |hs|), k + BLOCK_HEADERS_PER_FETCH;
      HonestStep(c, hs, k, fetch, checkPoints);
      LinkedReads(c, hs, k, end, k + 1, checkPoints);
      HonestFrom(c, hs, n, later, fetch, checkPoints);
      BatchByBatch(c, hs, n, k, checkPoints);
    }
  }

  lemma BatchByBatch(c: Crypto, hs: seq<Block>, n: nat, k: nat, checkPoints: map<nat, Hash>)
    requires n <= k < |hs| && (k - n) % BLOCK_HEADERS_PER_FETCH == 0
    ensures var end, later := LastOfBatch(k + 1, |hs|), k + BLOCK_HEADERS_PER_FETCH;
            && end <= |hs|
            && (AllHashed(c, hs, n, k, checkPoints)
                <==> Hashed(c, hs, k, end, k + 1, checkPoints) && AllHashed(c, hs, n, later, checkPoints))
            && (NoneIsZero(hs, k, |hs|) <==> NoneIsZero(hs, k, end) && NoneIsZero(hs, later, |hs|))
  {
    hide Block.GetHash, Block.Difficulty, BatchStart;
    var end, later := LastOfBatch(k + 1, |hs|), k + BLOCK_HEADERS_PER_FETCH;
    forall i | k <= i < end
      ensures BatchStart(n, i) == k + 1
    {
      WithinBatch(n, k, i);
    }
    if AllHashed(c, hs, n, k, checkPoints) {
      assert forall i :: k <= i < end && BatchStart(n, i) in checkPoints
                         ==> hs[i].GetHash(c) == checkPoints[BatchStart(n, i)];
    }
  }

  lemma WithinBatch(n: nat, k: nat, i: nat)
    requires n <= k <= i < k + BLOCK_HEADERS_PER_FETCH && (k - n) % BLOCK_HEADERS_PER_FETCH == 0
    ensures BatchStart(n, i) == k + 1
  {
  }

  /** A batch that starts on a checkpoint is held to it as a whole: the id is not
      advanced within a batch, so two different headers never pass. */
  lemma {:induction false} CheckPointHoldsBatch(c: Crypto, hs: seq<Block>, bs: seq<Block>, first: nat,
                                                checkPoints: map<nat, Hash>)
    requires first in checkPoints && Read(c, hs, bs, first, checkPoints).end.Done?
    ensures forall b <- bs :: b.GetHash(c) == checkPoints[first]
    decreases |bs|
  {
    if bs == [] {
    } else {
      CheckPointHoldsBatch(c, hs + [bs[0]], bs[1..], first, checkPoints);
      assert bs == [bs[0]] + bs[1..];
    }
  }

  lemma LastOfHashes(c: Crypto, hs: seq<Block>)
    ensures LastHash(c, hs) == if hs == [] then NULL_HASH else HashesOf(c, hs)[|hs| - 1]
  {
  }

  /** A local chain with the very hashes of the trusted host agrees with it on all but
      its last block, unless that hash is the null hash itself.  Nothing is popped for
      it: the host's work is no more than the chain's own. */
  lemma OwnTipDiffers(c: Crypto, s: seq<Block>)
    requires s != []
    ensures var agreed := AgreedLength(c, s, i => TrustedHash(HashesOf(c, s), i), 0);
            agreed == if Last(s).GetHash(c) == NULL_HASH then |s| else |s| - 1
  {
    AgreedIsLongest(c, s, i => TrustedHash(HashesOf(c, s), i), 0);
  }

  /** A local chain that is strictly behind the host's, on the same blocks, is kept whole. */
  lemma LaggingChainKept(c: Crypto, s: seq<Block>, hashes: seq<Hash>)
    requires s != [] && |s| < |hashes| && forall i :: 0 <= i < |s| ==> s[i].GetHash(c) == hashes[i]
    ensures Kept(c, s, i => TrustedHash(hashes, i)) == |s|
  {
    AgreedIsLongest(c, s, i => TrustedHash(hashes, i), 0);
  }

  /** Against any host chain the agreement ends before the host's last block, or at a
      local block whose hash is null. */
  lemma AgreementIsShort(c: Crypto, s: seq<Block>, hashes: seq<Hash>)
    ensures var agreed := AgreedLength(c, s, i => TrustedHash(hashes, i), 0);
            agreed < |hashes| || agreed == 0 || (agreed <= |s| && s[agreed - 1].GetHash(c) == NULL_HASH)
  {
    AgreedIsLongest(c, s, i => TrustedHash(hashes, i), 0);
  }
}
