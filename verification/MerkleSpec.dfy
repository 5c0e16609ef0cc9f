/** The Merkle tree of a block as a value: the order of its leaves and the tree
    that pairing from a queue builds over them. */
module MerkleSpec {
  import opened Words
  import opened Records

  // ----- the order of the leaves -----

  /** The text that hash strings are compared by. */
  function HexDigit(n: nat): (c: char)
    requires n < 16
  {
    "0123456789ABCDEF"[n]
  }

  function Hex(s: seq<byte>): string {
    if s == [] then "" else [HexDigit(s[0] / 16), HexDigit(s[0] % 16)] + Hex(s[1..])
  }

  /** Strings compare character by character. */
  predicate Above(a: string, b: string) {
    a != "" && (b == "" || a[0] > b[0] || (a[0] == b[0] && Above(a[1..], b[1..])))
  }

  lemma HexDigitOrder(m: nat, n: nat)
    requires m < 16 && n < 16
    ensures HexDigit(m) > HexDigit(n) <==> m > n
    ensures HexDigit(m) == HexDigit(n) <==> m == n
  {
  }

  lemma LeadingByteDecides(x: nat, y: nat, p: nat, u: nat, v: nat)
    requires u < p && v < p
    ensures x > y ==> x * p + u > y * p + v
    ensures x * p + u == y * p + v <==> x == y && u == v
  {
    MultipleBound(x - y, p);
    assert x * p == y * p + (x - y) * p;
  }

  /** Comparing the hexadecimal texts of equally long strings is comparing the
      numbers they spell, so two hashes tie only when they are equal. */
  lemma {:induction false} HexOrderIsNumeric(a: seq<byte>, b: seq<byte>)
    requires |a| == |b|
    ensures Above(Hex(a), Hex(b)) <==> FromBigEndian(a) > FromBigEndian(b)
    ensures FromBigEndian(a) == FromBigEndian(b) <==> a == b
  {
    if a == [] {
    } else {
      var x, y, p := a[0], b[0], Span(|a| - 1);
      assert a == [x] + a[1..] && b == [y] + b[1..];
      BigEndianHead(x, a[1..]);
      BigEndianHead(y, b[1..]);
      BigEndianBound(a[1..]);
      BigEndianBound(b[1..]);
      HexOrderIsNumeric(a[1..], b[1..]);
      LeadingByteDecides(x, y, p, FromBigEndian(a[1..]), FromBigEndian(b[1..]));
      LeadingByteDecides(y, x, p, FromBigEndian(b[1..]), FromBigEndian(a[1..]));
      HexHead(a, b);
    }
  }

  lemma HexHead(a: seq<byte>, b: seq<byte>)
    requires a != [] && b != []
    ensures Above(Hex(a), Hex(b)) <==> a[0] > b[0] || (a[0] == b[0] && Above(Hex(a[1..]), Hex(b[1..])))
  {
    var x, y := a[0], b[0];
    HexDigitOrder(x / 16, y / 16);
    HexDigitOrder(x % 16, y % 16);
    var s, t := Hex(a), Hex(b);
    assert s[1..][1..] == Hex(a[1..]) && t[1..][1..] == Hex(b[1..]);
    assert s[1..][0] == HexDigit(x % 16) && t[1..][0] == HexDigit(y % 16);
  }

  predicate Descending(hs: seq<Hash>) {
    forall i, j :: 0 <= i < j < |hs| ==> FromBigEndian(hs[i]) >= FromBigEndian(hs[j])
  }

  function Hashes(c: Crypto, txs: seq<Transaction>): (hs: seq<Hash>)
    ensures |hs| == |txs|
  {
    if txs == [] then [] else [TransactionHash(c, txs[0])] + Hashes(c, txs[1..])
  }

  function Insert(c: Crypto, t: Transaction, txs: seq<Transaction>): (r: seq<Transaction>)
    ensures multiset(r) == multiset([t]) + multiset(txs)
  {
    if txs == [] || !Above(Hex(TransactionHash(c, txs[0])), Hex(TransactionHash(c, t))) then [t] + txs
    else
      assert txs == [txs[0]] + txs[1..];
      [txs[0]] + Insert(c, t, txs[1..])
  }

  /** The library sort with the program's comparison.  Which of two equally hashed
      transactions comes first is the library's choice; here it is the input order. */
  function SortByHash(c: Crypto, txs: seq<Transaction>): (r: seq<Transaction>)
    ensures multiset(r) == multiset(txs) && |r| == |txs|
  {
    if txs == [] then []
    else
      assert txs == [txs[0]] + txs[1..];
      var r := Insert(c, txs[0], SortByHash(c, txs[1..]));
      assert |r| == |multiset(r)| && |txs| == |multiset(txs)|;
      r
  }

  lemma {:induction false} InsertHashes(c: Crypto, t: Transaction, txs: seq<Transaction>)
    ensures multiset(Hashes(c, Insert(c, t, txs))) == multiset([TransactionHash(c, t)]) + multiset(Hashes(c, txs))
    ensures Insert(c, t, txs) != []
  {
    var h, hs := TransactionHash(c, t), Hashes(c, txs);
    if txs == [] || !Above(Hex(TransactionHash(c, txs[0])), Hex(h)) {
      assert ([t] + txs)[1..] == txs;
      assert Hashes(c, [t] + txs) == [h] + hs;
    } else {
      InsertHashes(c, t, txs[1..]);
      HashesCons(c, txs[0], Insert(c, t, txs[1..]));
      HashesCons(c, txs[0], txs[1..]);
      assert txs == [txs[0]] + txs[1..];
    }
  }

  lemma HashesCons(c: Crypto, t: Transaction, txs: seq<Transaction>)
    ensures Hashes(c, [t] + txs) == [TransactionHash(c, t)] + Hashes(c, txs)
  {
    assert ([t] + txs)[1..] == txs;
  }

  lemma DescendingCons(x: Hash, hs: seq<Hash>)
    requires Descending(hs) && forall y <- hs :: FromBigEndian(x) >= FromBigEndian(y)
    ensures Descending([x] + hs)
  {
  }

  lemma DescendingTail(hs: seq<Hash>)
    requires Descending(hs) && hs != []
    ensures Descending(hs[1..]) && forall y <- hs[1..] :: FromBigEndian(hs[0]) >= FromBigEndian(y)
  {
  }

  lemma {:induction false} InsertDescends(c: Crypto, t: Transaction, txs: seq<Transaction>)
    requires Descending(Hashes(c, txs))
    ensures Descending(Hashes(c, Insert(c, t, txs)))
  {
    var h, hs := TransactionHash(c, t), Hashes(c, txs);
    if txs == [] {
      HashesCons(c, t, []);
    } else {
      var g := TransactionHash(c, txs[0]);
      HexOrderIsNumeric(g, h);
      DescendingTail(hs);
      if Above(Hex(g), Hex(h)) {
        var rest := Hashes(c, Insert(c, t, txs[1..]));
        InsertDescends(c, t, txs[1..]);
        InsertHashes(c, t, txs[1..]);
        MembersFromMultiset(rest, h, hs[1..]);
        DescendingCons(g, rest);
        HashesCons(c, txs[0], Insert(c, t, txs[1..]));
      } else {
        DescendingCons(h, hs);
        HashesCons(c, t, txs);
      }
    }
  }

  lemma MembersFromMultiset(rest: seq<Hash>, h: Hash, hs: seq<Hash>)
    requires multiset(rest) == multiset([h]) + multiset(hs)
    ensures forall x <- rest :: x == h || x in hs
  {
    forall x | x in rest
      ensures x == h || x in hs
    {
      assert x in multiset(rest);
    }
  }

  lemma {:induction false} SortDescends(c: Crypto, txs: seq<Transaction>)
    ensures Descending(Hashes(c, SortByHash(c, txs)))
    ensures multiset(Hashes(c, SortByHash(c, txs))) == multiset(Hashes(c, txs))
  {
    if txs == [] {
    } else {
      SortDescends(c, txs[1..]);
      InsertDescends(c, txs[0], SortByHash(c, txs[1..]));
      InsertHashes(c, txs[0], SortByHash(c, txs[1..]));
      assert Hashes(c, txs) == [TransactionHash(c, txs[0])] + Hashes(c, txs[1..]);
    }
  }

  /** A list in descending order is left as it is. */
  lemma {:induction false} SortedStays(c: Crypto, txs: seq<Transaction>)
    requires Descending(Hashes(c, txs))
    ensures SortByHash(c, txs) == txs
  {
    if txs == [] {
    } else {
      DescendingTail(Hashes(c, txs));
      SortedStays(c, txs[1..]);
      assert txs == [txs[0]] + txs[1..];
      if txs[1..] == [] {
      } else {
        assert Hashes(c, txs)[1..][0] == TransactionHash(c, txs[1]);
        HexOrderIsNumeric(TransactionHash(c, txs[1]), TransactionHash(c, txs[0]));
      }
    }
  }

  lemma SortAgain(c: Crypto, txs: seq<Transaction>)
    ensures SortByHash(c, SortByHash(c, txs)) == SortByHash(c, txs)
  {
    SortDescends(c, txs);
    SortedStays(c, SortByHash(c, txs));
  }

  lemma SameCount(a: seq<Hash>, b: seq<Hash>)
    requires multiset(a) == multiset(b)
    ensures |a| == |b|
  {
    assert |a| == |multiset(a)| == |multiset(b)| == |b|;
  }

  lemma GreatestFirst(a: seq<Hash>)
    requires a != [] && Descending(a)
    ensures Descending(a[1..]) && multiset(a[1..]) == multiset(a) - multiset{a[0]}
    ensures forall x <- multiset(a) :: FromBigEndian(a[0]) >= FromBigEndian(x)
  {
    hide FromBigEndian;
    assert a == [a[0]] + a[1..];
  }

  lemma SameFirst(a: seq<Hash>, b: seq<Hash>)
    requires a != [] && b != [] && Descending(a) && Descending(b) && multiset(a) == multiset(b)
    ensures a[0] == b[0] && multiset(a[1..]) == multiset(b[1..])
  {
    hide Descending, FromBigEndian;
    GreatestFirst(a);
    GreatestFirst(b);
    assert a[0] in multiset(a) && b[0] in multiset(b);
    HexOrderIsNumeric(a[0], b[0]);
  }

  /** A multiset of hashes has one descending order. */
  lemma {:induction false} DescendingUnique(a: seq<Hash>, b: seq<Hash>)
    requires Descending(a) && Descending(b) && multiset(a) == multiset(b)
    ensures a == b
  {
    SameCount(a, b);
    if a == [] {
    } else {
      SameFirst(a, b);
      GreatestFirst(a);
      GreatestFirst(b);
      hide Descending;
      DescendingUnique(a[1..], b[1..]);
      assert a == [a[0]] + a[1..] && b == [b[0]] + b[1..];
    }
  }

  // ----- the tree -----

  datatype Tree = Leaf(hash: Hash) | Node(hash: Hash, left: Tree, right: Tree)

  function Size(t: Tree): nat {
    match t
    case Leaf(_) => 1
    case Node(_, l, r) => 1 + Size(l) + Size(r)
  }

  function Fringe(t: Tree): seq<Hash> {
    match t
    case Leaf(h) => [h]
    case Node(_, l, r) => Fringe(l) + Fringe(r)
  }

  function FringeAll(q: seq<Tree>): seq<Hash> {
    if q == [] then [] else Fringe(q[0]) + FringeAll(q[1..])
  }

  function Concat(c: Crypto, a: Hash, b: Hash): Hash { c.sha256(a + b) }

  /** Every inner hash is the hash of its children's hashes. */
  predicate WellHashed(c: Crypto, t: Tree) {
    match t
    case Leaf(_) => true
    case Node(h, l, r) => h == Concat(c, l.hash, r.hash) && WellHashed(c, l) && WellHashed(c, r)
  }

  function Leaves(hs: seq<Hash>): (q: seq<Tree>)
    ensures |q| == |hs|
  {
    if hs == [] then [] else [Leaf(hs[0])] + Leaves(hs[1..])
  }

  /** An odd list repeats its last hash. */
  function PadOdd(hs: seq<Hash>): (r: seq<Hash>)
    ensures |r| % 2 == 0 && (hs != [] ==> |r| >= 2)
  {
    if |hs| % 2 == 1 then hs + [hs[|hs| - 1]] else hs
  }

  /** Take two from the front, put their parent at the back. */
  function Build(c: Crypto, q: seq<Tree>): Tree
    requires q != []
    decreases |q|
  {
    if |q| == 1 then q[0] else Build(c, q[2..] + [Node(Concat(c, q[0].hash, q[1].hash), q[0], q[1])])
  }

  function RootTree(c: Crypto, txs: seq<Transaction>): Tree
    requires txs != []
  {
    Build(c, Leaves(PadOdd(Hashes(c, SortByHash(c, txs)))))
  }

  function MerkleRoot(c: Crypto, txs: seq<Transaction>): Hash
    requires txs != []
  {
    RootTree(c, txs).hash
  }

  ghost predicate IsRotation(a: seq<Hash>, b: seq<Hash>) {
    exists k: nat :: k <= |b| && a == b[k..] + b[..k]
  }

  lemma {:induction false} FringeAllAppend(p: seq<Tree>, q: seq<Tree>)
    ensures FringeAll(p + q) == FringeAll(p) + FringeAll(q)
  {
    if p == [] {
      assert p + q == q;
    } else {
      assert (p + q)[1..] == p[1..] + q;
      FringeAllAppend(p[1..], q);
    }
  }

  lemma {:induction false} FringeOfLeaves(hs: seq<Hash>)
    ensures FringeAll(Leaves(hs)) == hs
  {
    if hs == [] {
    } else {
      FringeOfLeaves(hs[1..]);
    }
  }

  lemma RotateOn(a: seq<Hash>, b: seq<Hash>, rest: seq<Hash>, front: seq<Hash>)
    requires IsRotation(b, a) && b == front + rest
    ensures IsRotation(rest + front, a)
  {
    var k: nat :| k <= |a| && b == a[k..] + a[..k];
    var u, v, n := a[..k], a[k..], |front|;
    assert a == u + v;
    if n <= |v| {
      RotateFront(u, v, front, rest);
      assert rest + front == a[k + n..] + a[..k + n];
    } else {
      RotatePast(u, v, front, rest);
      assert rest + front == a[n - |v|..] + a[..n - |v|];
    }
  }

  lemma RotateFront(u: seq<Hash>, v: seq<Hash>, front: seq<Hash>, rest: seq<Hash>)
    requires v + u == front + rest && |front| <= |v|
    ensures v == front + v[|front|..] && rest == v[|front|..] + u
  {
    assert front == (v + u)[..|front|] == v[..|front|];
    assert rest == (v + u)[|front|..];
  }

  lemma RotatePast(u: seq<Hash>, v: seq<Hash>, front: seq<Hash>, rest: seq<Hash>)
    requires v + u == front + rest && |front| > |v|
    ensures front == v + u[..|front| - |v|] && rest == u[|front| - |v|..]
  {
    assert front == (v + u)[..|front|];
    assert rest == (v + u)[|front|..];
  }

  /** Pairing across levels keeps the leaves in order up to a rotation. */
  lemma {:induction false} BuildRotates(c: Crypto, q: seq<Tree>, hs: seq<Hash>)
    requires q != [] && IsRotation(FringeAll(q), hs)
    ensures IsRotation(Fringe(Build(c, q)), hs)
    decreases |q|
  {
    if |q| == 1 {
      assert q[1..] == [];
      assert FringeAll(q) == Fringe(q[0]);
    } else {
      var node := Node(Concat(c, q[0].hash, q[1].hash), q[0], q[1]);
      assert q == [q[0], q[1]] + q[2..];
      FringeAllAppend([q[0], q[1]], q[2..]);
      PairFringe(q[0], q[1], node);
      FringeAllAppend(q[2..], [node]);
      RotateOn(hs, FringeAll(q), FringeAll(q[2..]), Fringe(node));
      BuildRotates(c, q[2..] + [node], hs);
    }
  }

  lemma PairFringe(a: Tree, b: Tree, node: Tree)
    requires node.Node? && node.left == a && node.right == b
    ensures FringeAll([a, b]) == Fringe(node) && FringeAll([node]) == Fringe(node)
  {
    assert [a, b][1..] == [b];
    FringeAllOne(b);
    FringeAllOne(node);
  }

  lemma FringeAllOne(t: Tree)
    ensures FringeAll([t]) == Fringe(t)
  {
    assert [t][1..] == [];
    assert FringeAll([t]) == Fringe(t) + [];
  }

  lemma {:induction false} BuildWellHashed(c: Crypto, q: seq<Tree>)
    requires q != [] && forall t <- q :: WellHashed(c, t)
    ensures WellHashed(c, Build(c, q))
    ensures |q| >= 2 ==> Build(c, q).Node?
    decreases |q|
  {
    if |q| == 1 {
    } else {
      var node := Node(Concat(c, q[0].hash, q[1].hash), q[0], q[1]);
      BuildWellHashed(c, q[2..] + [node]);
    }
  }

  lemma {:induction false} LeavesWellHashed(c: Crypto, hs: seq<Hash>)
    ensures forall t <- Leaves(hs) :: WellHashed(c, t)
  {
    if hs == [] {
    } else {
      LeavesWellHashed(c, hs[1..]);
    }
  }

  /** The tree of a nonempty block: hashed throughout, with two children at the
      top, and its leaves a rotation of the sorted, padded list. */
  lemma RootTreeShape(c: Crypto, txs: seq<Transaction>)
    requires txs != []
    ensures WellHashed(c, RootTree(c, txs)) && RootTree(c, txs).Node?
    ensures IsRotation(Fringe(RootTree(c, txs)), PadOdd(Hashes(c, SortByHash(c, txs))))
  {
    var hs := PadOdd(Hashes(c, SortByHash(c, txs)));
    FringeOfLeaves(hs);
    assert hs == hs[0..] + hs[..0];
    assert IsRotation(FringeAll(Leaves(hs)), hs);
    LeavesWellHashed(c, hs);
    BuildWellHashed(c, Leaves(hs));
    BuildRotates(c, Leaves(hs), hs);
  }

  /** The root depends only on which transaction hashes a block has, not on their
      order. */
  lemma RootIgnoresOrder(c: Crypto, txs: seq<Transaction>, txs': seq<Transaction>)
    requires txs != [] && txs' != []
    requires multiset(Hashes(c, txs)) == multiset(Hashes(c, txs'))
    ensures RootTree(c, txs) == RootTree(c, txs')
  {
    SortDescends(c, txs);
    SortDescends(c, txs');
    DescendingUnique(Hashes(c, SortByHash(c, txs)), Hashes(c, SortByHash(c, txs')));
  }

  // ----- which leaves, and in which tree -----

  lemma {:induction false} HashesAt(c: Crypto, txs: seq<Transaction>, i: nat)
    requires i < |txs|
    ensures Hashes(c, txs)[i] == TransactionHash(c, txs[i])
  {
    if i == 0 {
    } else {
      HashesAt(c, txs[1..], i - 1);
    }
  }

  function HashList(c: Crypto, txs: seq<Transaction>): (hs: seq<Hash>)
  {
    seq<Hash>(|txs|, i requires 0 <= i < |txs| => TransactionHash(c, txs[i]))
  }

  lemma HashesAre(c: Crypto, txs: seq<Transaction>)
    ensures Hashes(c, txs) == HashList(c, txs)
  {
    forall i | 0 <= i < |txs|
      ensures Hashes(c, txs)[i] == HashList(c, txs)[i]
    {
      HashesAt(c, txs, i);
    }
  }

  /** The leaves are the hashes of the transactions, each as often as it occurs, and for an
      odd number of them the least one once more. */
  ghost predicate RightLeaves(c: Crypto, txs: seq<Transaction>, leaves: seq<Hash>) {
    var hs := HashList(c, txs);
    if |txs| % 2 == 0 then multiset(leaves) == multiset(hs)
    else exists h: Hash :: IsLeast(h, hs) && multiset(leaves) == multiset(hs) + multiset{h}
  }

  predicate IsLeast(h: Hash, hs: seq<Hash>) {
    h in hs && forall i :: 0 <= i < |hs| ==> FromBigEndian(h) <= FromBigEndian(hs[i])
  }

  lemma RootLeaves(c: Crypto, txs: seq<Transaction>)
    requires txs != []
    ensures RightLeaves(c, txs, Fringe(RootTree(c, txs)))
  {
    hide RootTree, FromBigEndian, SortByHash;
    var hs, sorted := HashList(c, txs), Hashes(c, SortByHash(c, txs));
    RootTreeShape(c, txs);
    SortDescends(c, txs);
    HashesAre(c, txs);
    RotationSame(Fringe(RootTree(c, txs)), PadOdd(sorted));
    SameCount(sorted, hs);
    if |txs| % 2 == 1 {
      LastIsLeast(sorted, hs);
      assert IsLeast(sorted[|sorted| - 1], hs);
    }
  }

  lemma RotationSame(a: seq<Hash>, b: seq<Hash>)
    requires IsRotation(a, b)
    ensures multiset(a) == multiset(b)
  {
    var k: nat :| k <= |b| && a == b[k..] + b[..k];
    assert b == b[..k] + b[k..];
  }

  lemma LastIsLeast(sorted: seq<Hash>, hs: seq<Hash>)
    requires sorted != [] && Descending(sorted) && multiset(sorted) == multiset(hs)
    ensures IsLeast(sorted[|sorted| - 1], hs)
  {
    hide FromBigEndian;
    var h := sorted[|sorted| - 1];
    assert h in multiset(sorted);
    assert h in multiset(hs);
    forall i | 0 <= i < |hs|
      ensures FromBigEndian(h) <= FromBigEndian(hs[i])
    {
      assert hs[i] in multiset(hs);
      assert hs[i] in sorted;
    }
  }

  /** One level up: neighbours get a parent. */
  function Pairs(c: Crypto, q: seq<Tree>): (r: seq<Tree>)
    ensures |r| == |q| / 2
  {
    if |q| < 2 then [] else [Node(c.sha256(q[0].hash + q[1].hash), q[0], q[1])] + Pairs(c, q[2..])
  }

  /** Level by level; the last of an odd level goes to the front of the next one. */
  function ByLevels(c: Crypto, q: seq<Tree>): Tree
    requires q != []
    decreases |q|
  {
    if |q| == 1 then q[0]
    else if |q| % 2 == 0 then ByLevels(c, Pairs(c, q))
    else ByLevels(c, [q[|q| - 1]] + Pairs(c, q[..|q| - 1]))
  }

  lemma {:induction false} BuildThrough(c: Crypto, q: seq<Tree>, rest: seq<Tree>)
    requires |q| % 2 == 0 && q + rest != []
    ensures Pairs(c, q) + rest != []
    ensures Build(c, q + rest) == Build(c, rest + Pairs(c, q))
    decreases |q|
  {
    if q == [] {
      assert q + rest == rest == rest + Pairs(c, q);
    } else {
      var node := Node(Concat(c, q[0].hash, q[1].hash), q[0], q[1]);
      BuildThrough(c, q[2..], rest + [node]);
      assert (q + rest)[0] == q[0] && (q + rest)[1] == q[1];
      assert (q + rest)[2..] + [node] == q[2..] + (rest + [node]);
      assert (rest + [node]) + Pairs(c, q[2..]) == rest + Pairs(c, q);
    }
  }

  /** Pairing from a queue builds the tree level by level. */
  lemma {:induction false} BuildIsByLevels(c: Crypto, q: seq<Tree>)
    requires q != []
    ensures Build(c, q) == ByLevels(c, q)
    decreases |q|
  {
    hide Pairs;
    if |q| == 1 {
    } else if |q| % 2 == 0 {
      BuildThrough(c, q, []);
      assert q + [] == q && [] + Pairs(c, q) == Pairs(c, q);
      BuildIsByLevels(c, Pairs(c, q));
    } else {
      var front, last := q[..|q| - 1], [q[|q| - 1]];
      BuildThrough(c, front, last);
      assert front + last == q;
      BuildIsByLevels(c, last + Pairs(c, front));
    }
  }

  /** The tree of a block: over its hashes in descending order, the least one twice if their
      number is odd, level by level. */
  lemma RootIs(c: Crypto, txs: seq<Transaction>, hs: seq<Hash>)
    requires txs != [] && hs != [] && Descending(hs) && multiset(hs) == multiset(HashList(c, txs))
    ensures RootTree(c, txs)
            == ByLevels(c, Leaves(if |hs| % 2 == 1 then hs + [hs[|hs| - 1]] else hs))
  {
    hide Build, ByLevels, Leaves, Hashes, Descending;
    var sorted := Hashes(c, SortByHash(c, txs));
    SortDescends(c, txs);
    HashesAre(c, txs);
    DescendingUnique(hs, sorted);
    BuildIsByLevels(c, Leaves(PadOdd(sorted)));
  }
}
