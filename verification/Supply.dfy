/** The total supply: what executing a block does to the sum of all balances. */
module Supplies {
  import opened Words
  import opened Records
  import opened Ledgers
  import opened Execution

  /** The sum of the balances of a set of wallets. */
  ghost function SumOver(ws: set<Address>, m: Balances): nat {
    if ws == {} then 0
    else
      var w :| w in ws;
      Balance(m, w) + SumOver(ws - {w}, m)
  }

  ghost function Supply(m: Balances): nat { SumOver(m.Keys, m) }

  lemma {:induction false} SumTakeOut(ws: set<Address>, m: Balances, x: Address)
    requires x in ws
    ensures SumOver(ws, m) == Balance(m, x) + SumOver(ws - {x}, m)
  {
    var w :| w in ws && SumOver(ws, m) == Balance(m, w) + SumOver(ws - {w}, m);
    if w == x {
    } else {
      SumTakeOut(ws - {w}, m, x);
      SumTakeOut(ws - {x}, m, w);
      assert ws - {w} - {x} == ws - {x} - {w};
    }
  }

  lemma {:induction false} SumSame(ws: set<Address>, m: Balances, m': Balances)
    requires forall w <- ws :: Balance(m, w) == Balance(m', w)
    ensures SumOver(ws, m) == SumOver(ws, m')
  {
    if ws == {} {
    } else {
      var w :| w in ws && SumOver(ws, m) == Balance(m, w) + SumOver(ws - {w}, m);
      SumSame(ws - {w}, m, m');
      SumTakeOut(ws, m', w);
    }
  }

  /** Wallets that hold nothing, or do not exist, do not matter. */
  lemma {:induction false} SumEnlarge(ws: set<Address>, extra: set<Address>, m: Balances)
    requires ws !! extra && forall w <- extra :: Balance(m, w) == 0
    ensures SumOver(ws + extra, m) == SumOver(ws, m)
    decreases extra
  {
    if extra == {} {
      assert ws + extra == ws;
    } else {
      var x :| x in extra;
      SumTakeOut(ws + extra, m, x);
      assert ws + extra - {x} == ws + (extra - {x});
      SumEnlarge(ws, extra - {x}, m);
    }
  }

  /** The supply depends on the balances alone. */
  lemma SupplySame(m: Balances, m': Balances)
    requires forall w: Address :: Balance(m, w) == Balance(m', w)
    ensures Supply(m) == Supply(m')
  {
    SumEnlarge(m.Keys, m'.Keys - m.Keys, m);
    SumEnlarge(m'.Keys, m.Keys - m'.Keys, m');
    assert m.Keys + (m'.Keys - m.Keys) == m'.Keys + (m.Keys - m'.Keys);
    SumSame(m.Keys + (m'.Keys - m.Keys), m, m');
  }

  /** The balances of three wallets, each counted once. */
  function SumOfThree(m: Balances, u: Address, v: Address, w: Address): nat {
    Balance(m, u) + (if v == u then 0 else Balance(m, v)) + (if w == u || w == v then 0 else Balance(m, w))
  }

  lemma ThreeWithinSupply(m: Balances, u: Address, v: Address, w: Address)
    ensures SumOfThree(m, u, v, w) <= Supply(m)
  {
    var ws := m.Keys + {u, v, w};
    SumEnlarge(m.Keys, {u, v, w} - m.Keys, m);
    assert m.Keys + ({u, v, w} - m.Keys) == ws;
    SumTakeOut(ws, m, u);
    if v != u {
      SumTakeOut(ws - {u}, m, v);
    }
    if w != u && w != v {
      SumTakeOut(ws - {u} - {v}, m, w);
      assert ws - {u} - {v} == if v == u then ws - {u} else ws - {u} - {v};
    }
  }

  lemma BalanceWithinSupply(m: Balances, w: Address)
    ensures Balance(m, w) <= Supply(m)
  {
    if w in m {
      SumTakeOut(m.Keys, m, w);
    }
  }

  lemma SetBalance(m: Balances, w: Address, v: uint64)
    ensures Supply(m[w := v]) == Supply(m) - Balance(m, w) + v
    ensures forall x: Address :: Balance(m[w := v], x) == if x == w then v else Balance(m, x)
  {
    var m' := m[w := v];
    var rest := m.Keys - {w};
    assert m'.Keys == m.Keys + {w} && m'.Keys - {w} == rest;
    SumTakeOut(m'.Keys, m', w);
    SumSame(rest, m, m');
    if w in m {
      SumTakeOut(m.Keys, m, w);
    } else {
      assert rest == m.Keys;
    }
  }

  // ----- exact updates -----

  /** A credit that the supply leaves room for is exact. */
  lemma CreditExact(m: Balances, k: Address, amount: uint64)
    requires Supply(m) + amount < TWO_64
    ensures Supply(Credit(m, k, amount)) == Supply(m) + amount
    ensures forall w: Address :: Balance(Credit(m, k, amount), w) == Balance(m, w) + On(w, k, amount)
  {
    BalanceWithinSupply(m, k);
    SetBalance(m, k, Add64(Balance(m, k), amount));
  }

  lemma DebitExact(m: Balances, k: Address, amount: uint64)
    requires Balance(m, k) >= amount
    ensures Supply(Debit(m, k, amount)) == Supply(m) - amount
    ensures forall w: Address :: Balance(Debit(m, k, amount), w) == Balance(m, w) - On(w, k, amount)
  {
    SetBalance(m, k, Sub64(Balance(m, k), amount));
  }

  /** A payment that is covered, or made to oneself, keeps the supply. */
  lemma PayExact(m: Balances, from: Address, to: Address, amount: uint64)
    requires (from == to || Balance(m, from) >= amount) && Supply(m) < TWO_64
    ensures Supply(Credit(Debit(m, from, amount), to, amount)) == Supply(m)
    ensures forall w: Address :: Balance(Credit(Debit(m, from, amount), to, amount), w)
                                 == Balance(m, w) + (On(w, to, amount) - On(w, from, amount))
  {
    if from == to {
      hide Supply;
      var m' := Credit(Debit(m, from, amount), to, amount);
      forall w: Address
        ensures Balance(m', w) == Balance(m, w)
      {
        PayAt(m, from, to, amount, w);
      }
      SupplySame(m, m');
    } else {
      DebitExact(m, from, amount);
      CreditExact(Debit(m, from, amount), to, amount);
    }
  }

  // ----- one transaction and a block of them -----

  /** The amount and the fee of a transfer add up without wrapping around. */
  predicate NoWrap(t: Transaction) { t.Transfer? ==> t.amount + t.fee < TWO_64 }

  /** What a transaction creates: fees and genesis deposits come out of nothing. */
  function Mint(t: Transaction, genesis: bool): nat {
    if t.Fee? || genesis then t.amount else 0
  }

  function MintAll(txs: seq<Transaction>, genesis: bool): nat {
    if txs == [] then 0 else Mint(txs[0], genesis) + MintAll(txs[1..], genesis)
  }

  /** What a transfer takes from its payer's balance. */
  function Cost(t: Transaction, miner: Address): nat
    requires t.Transfer?
  {
    (if t.from == t.to then 0 else t.amount) + (if t.from == miner then 0 else t.fee)
  }

  /** The payer's balance covers what a transfer takes from it; what it pays to itself
      takes nothing. */
  predicate Covered(t: Transaction, miner: Address, genesis: bool, m: Balances) {
    t.Fee? || genesis || Balance(m, t.from) >= Cost(t, miner)
  }

  /** A transaction moves every balance by its net amount, and not just modulo 2^64. */
  ghost predicate ExactStep(t: Transaction, miner: Address, genesis: bool, m: Balances) {
    forall w: Address :: Balance(Apply(t, miner, genesis, m), w) == Balance(m, w) + Net(t, miner, genesis, w)
  }

  /** If the supply leaves room for what it creates, a transaction is exact if and only if
      its payer covers it, and then the supply grows by what it creates. */
  lemma ExactIff(t: Transaction, miner: Address, genesis: bool, m: Balances)
    requires Supply(m) + Mint(t, genesis) < TWO_64
    ensures ExactStep(t, miner, genesis, m) <==> Covered(t, miner, genesis, m)
    ensures Covered(t, miner, genesis, m) ==> Supply(Apply(t, miner, genesis, m)) == Supply(m) + Mint(t, genesis)
  {
    hide Supply, Credit, Debit;
    if t.Fee? || genesis {
      CreditExact(m, t.to, t.amount);
    } else if Covered(t, miner, genesis, m) {
      var m1 := Credit(Debit(m, t.from, t.amount), t.to, t.amount);
      PayExact(m, t.from, t.to, t.amount);
      if t.fee > 0 {
        PayExact(m1, t.from, miner, t.fee);
      }
    } else {
      assert Balance(m, t.from) + Net(t, miner, genesis, t.from) < 0;
    }
  }

  /** An accepted transfer is covered, unless its sum wraps around. */
  lemma AcceptedCovered(c: Crypto, t: Transaction, miner: Address, m: Balances, blockFee: uint64, id: uint32)
    requires UpdateStatus(c, t, m, blockFee, id) == SUCCESS && (id != 1 ==> NoWrap(t))
    ensures Covered(t, miner, id == 1, m)
  {
  }

  predicate CoveredAll(txs: seq<Transaction>, miner: Address, genesis: bool, m: Balances) {
    txs != [] ==>
      Covered(txs[0], miner, genesis, m) && CoveredAll(txs[1..], miner, genesis, Apply(txs[0], miner, genesis, m))
  }

  ghost predicate ExactSteps(txs: seq<Transaction>, miner: Address, genesis: bool, m: Balances) {
    txs != [] ==>
      ExactStep(txs[0], miner, genesis, m) && ExactSteps(txs[1..], miner, genesis, Apply(txs[0], miner, genesis, m))
  }

  /** If there is room for what they create, the transactions of an accepted block are all
      exact if and only if each is covered when its turn comes.  Then the block is exact,
      and the supply grows by what was created. */
  lemma {:induction false} RunExact(c: Crypto, txs: seq<Transaction>, miner: Address,
                                    m: Balances, d: Balances, blockFee: uint64, id: uint32)
    requires RunAll(c, txs, miner, m, d, blockFee, id).status == SUCCESS
    requires Supply(m) + MintAll(txs, id == 1) < TWO_64
    ensures ExactSteps(txs, miner, id == 1, m) <==> CoveredAll(txs, miner, id == 1, m)
    ensures var m' := RunAll(c, txs, miner, m, d, blockFee, id).ledger;
            CoveredAll(txs, miner, id == 1, m) ==>
              && Supply(m') == Supply(m) + MintAll(txs, id == 1)
              && forall w: Address :: Balance(m', w) == Balance(m, w) + NetAll(txs, miner, id == 1, w)
  {
    if txs == [] {
    } else {
      hide Supply, Apply, Net, Covered;
      var m1, d1 := Apply(txs[0], miner, id == 1, m), Apply(txs[0], miner, id == 1, d);
      RunStep(c, txs, miner, m, d, blockFee, id);
      ExactIff(txs[0], miner, id == 1, m);
      if Covered(txs[0], miner, id == 1, m) {
        RunExact(c, txs[1..], miner, m1, d1, blockFee, id);
      }
    }
  }

  /** If no sum wraps, an accepted block is covered throughout. */
  lemma {:induction false} RunCovered(c: Crypto, txs: seq<Transaction>, miner: Address,
                                      m: Balances, d: Balances, blockFee: uint64, id: uint32)
    requires RunAll(c, txs, miner, m, d, blockFee, id).status == SUCCESS
    requires id != 1 ==> forall t <- txs :: NoWrap(t)
    ensures CoveredAll(txs, miner, id == 1, m)
  {
    if txs == [] {
    } else {
      hide Apply;
      var m1, d1 := Apply(txs[0], miner, id == 1, m), Apply(txs[0], miner, id == 1, d);
      RunStep(c, txs, miner, m, d, blockFee, id);
      AcceptedCovered(c, txs[0], miner, m, blockFee, id);
      RunCovered(c, txs[1..], miner, m1, d1, blockFee, id);
    }
  }

  // ----- the same, read off the transactions alone -----

  /** With base for the balances before the first, the payer of transaction k has what it
      pays to others, by the net amounts of those before it. */
  predicate Affords(txs: seq<Transaction>, miner: Address, genesis: bool, base: Address -> int, k: nat)
    requires k < |txs|
  {
    txs[k].Fee? || genesis
    || NetUpTo(txs, miner, genesis, base, k, txs[k].from) >= Cost(txs[k], miner)
  }

  predicate AffordsFrom(txs: seq<Transaction>, miner: Address, genesis: bool, base: Address -> int, j: nat) {
    forall k :: j <= k < |txs| ==> Affords(txs, miner, genesis, base, k)
  }

  function NetUpTo(txs: seq<Transaction>, miner: Address, genesis: bool, base: Address -> int, k: nat, w: Address): int
    requires k <= |txs|
  {
    base(w) + NetAll(txs[..k], miner, genesis, w)
  }

  function ApplyAll(txs: seq<Transaction>, miner: Address, genesis: bool, m: Balances): Balances {
    if txs == [] then m else ApplyAll(txs[1..], miner, genesis, Apply(txs[0], miner, genesis, m))
  }

  lemma NetUpToNext(txs: seq<Transaction>, miner: Address, genesis: bool, base: Address -> int, k: nat, w: Address)
    requires k < |txs|
    ensures NetUpTo(txs, miner, genesis, base, k + 1, w)
            == NetUpTo(txs, miner, genesis, base, k, w) + Net(txs[k], miner, genesis, w)
  {
    assert txs[..k + 1] == txs[..k] + [txs[k]];
    NetAllSnoc(txs[..k], txs[k], miner, genesis, w);
  }

  /** From balances that are the net amounts so far, with room for what is created: the
      transactions from j on are covered in turn if and only if their payers afford them.
      Then all net amounts on the way fit, and are the balances in the end. */
  lemma {:induction false} AllExact(txs: seq<Transaction>, miner: Address, genesis: bool, base: Address -> int,
                                    m: Balances, j: nat)
    requires j <= |txs| && Supply(m) + MintAll(txs[j..], genesis) < TWO_64
    requires forall w: Address :: Balance(m, w) == NetUpTo(txs, miner, genesis, base, j, w)
    ensures CoveredAll(txs[j..], miner, genesis, m)
            <==> AffordsFrom(txs, miner, genesis, base, j)
    ensures CoveredAll(txs[j..], miner, genesis, m) ==>
              var m' := ApplyAll(txs[j..], miner, genesis, m);
              && Supply(m') == Supply(m) + MintAll(txs[j..], genesis)
              && (forall w: Address :: Balance(m', w) == NetUpTo(txs, miner, genesis, base, |txs|, w))
              && (forall k, w: Address :: j <= k <= |txs| ==> 0 <= NetUpTo(txs, miner, genesis, base, k, w) < TWO_64)
    decreases |txs| - j
  {
    hide Supply, Apply, Net, NetUpTo;
    if j == |txs| {
    } else {
      var t, m1 := txs[j], Apply(txs[j], miner, genesis, m);
      assert txs[j..][0] == t && txs[j..][1..] == txs[j + 1..];
      ExactIff(t, miner, genesis, m);
      assert Covered(t, miner, genesis, m) <==> Affords(txs, miner, genesis, base, j);
      if Covered(t, miner, genesis, m) {
        forall w: Address
          ensures Balance(m1, w) == NetUpTo(txs, miner, genesis, base, j + 1, w)
        {
          NetUpToNext(txs, miner, genesis, base, j, w);
        }
        AllExact(txs, miner, genesis, base, m1, j + 1);
      }
    }
  }

  /** Past genesis, a block creates exactly its fees. */
  lemma {:induction false} MintIsFee(txs: seq<Transaction>)
    ensures Fees(txs) == 0 ==> MintAll(txs, false) == 0
    ensures Fees(txs) == 1 ==> MintAll(txs, false) == FeeAmount(txs)
  {
    if txs == [] {
    } else {
      MintIsFee(txs[1..]);
    }
  }

  // ----- where the supply grows out of nothing -----

  lemma CreditSupply(m: Balances, k: Address, amount: uint64)
    ensures Supply(Credit(m, k, amount))
            == Supply(m) + amount - (if Balance(m, k) + amount >= TWO_64 then TWO_64 else 0)
  {
    SetBalance(m, k, Add64(Balance(m, k), amount));
  }

  lemma DebitSupply(m: Balances, k: Address, amount: uint64)
    ensures Supply(Debit(m, k, amount)) == Supply(m) - amount + (if Balance(m, k) < amount then TWO_64 else 0)
  {
    SetBalance(m, k, Sub64(Balance(m, k), amount));
  }

  /** What is gained when a payment of a by x to y wraps around: out of nothing with the
      payer's balance, less what is lost with the payee's. */
  function Gain(x: int, y: int, a: int): int {
    (if x < a then TWO_64 else 0) - (if y + a >= TWO_64 then TWO_64 else 0)
  }

  function PayGain(m: Balances, from: Address, to: Address, amount: uint64): int {
    if from == to then 0 else Gain(Balance(m, from), Balance(m, to), amount)
  }

  lemma PayGains(m: Balances, from: Address, to: Address, amount: uint64)
    ensures Supply(Credit(Debit(m, from, amount), to, amount)) == Supply(m) + PayGain(m, from, to, amount)
  {
    hide Supply;
    if from == to {
      var m' := Credit(Debit(m, from, amount), to, amount);
      forall w: Address
        ensures Balance(m', w) == Balance(m, w)
      {
        PayAt(m, from, to, amount, w);
      }
      SupplySame(m, m');
    } else {
      DebitSupply(m, from, amount);
      CreditSupply(Debit(m, from, amount), to, amount);
    }
  }

  /** What an accepted transfer takes too much is lost again: a credit wraps as well. */
  predicate WrapsBack(t: Transaction, miner: Address, m: Balances)
    requires t.Transfer?
  {
    || (t.from != t.to && t.to != miner && Balance(m, t.to) + t.amount >= TWO_64)
    || (t.from != miner && t.to != miner && Balance(m, miner) + t.fee >= TWO_64)
    || (t.to == miner && Balance(m, t.to) + t.amount + t.fee >= TWO_64)
  }

  /** An accepted transfer keeps the supply if and only if its payer covers it or one of
      its credits wraps around too; otherwise the supply grows by 2^64. */
  lemma SupplyKeptIff(c: Crypto, t: Transaction, miner: Address, m: Balances, blockFee: uint64, id: uint32)
    requires t.Transfer? && id != 1 && UpdateStatus(c, t, m, blockFee, id) == SUCCESS && Supply(m) < TWO_64
    ensures Supply(Apply(t, miner, false, m))
            == Supply(m) + (if Covered(t, miner, false, m) || WrapsBack(t, miner, m) then 0 else TWO_64)
  {
    Wrapped(t.amount + t.fee, Add64(t.amount, t.fee));
    hide Supply, Credit, Debit, Covered, WrapsBack;
    var m1 := Credit(Debit(m, t.from, t.amount), t.to, t.amount);
    PayGains(m, t.from, t.to, t.amount);
    PayGains(m1, t.from, miner, t.fee);
    Paid(m, t, t.from, m1);
    Paid(m, t, miner, m1);
    ThreeWithinSupply(m, t.from, t.to, miner);
    GainIff(t, miner, m, Balance(m1, t.from), Balance(m1, miner));
  }

  /** What w has after the first payment of t. */
  lemma Paid(m: Balances, t: Transaction, w: Address, m1: Balances)
    requires t.Transfer? && m1 == Credit(Debit(m, t.from, t.amount), t.to, t.amount)
    ensures t.from == t.to || (w != t.from && w != t.to) ==> Balance(m1, w) == Balance(m, w)
    ensures w == t.from != t.to ==>
              Balance(m1, w) == Balance(m, w) - t.amount + (if Balance(m, w) < t.amount then TWO_64 else 0)
    ensures w == t.to != t.from ==>
              Balance(m1, w) == Balance(m, w) + t.amount - (if Balance(m, w) + t.amount >= TWO_64 then TWO_64 else 0)
  {
    hide Credit, Debit;
    PayAt(m, t.from, t.to, t.amount, w);
    Wrapped(Balance(m, w) + (On(w, t.to, t.amount) - On(w, t.from, t.amount)), Balance(m1, w));
  }

  /** The gains of the two payments of a transfer add up to 2^64 or to nothing.  After the
      first the payer has x1 and the miner z1. */
  lemma GainIff(t: Transaction, miner: Address, m: Balances, x1: uint64, z1: uint64)
    requires t.Transfer? && SumOfThree(m, t.from, t.to, miner) < TWO_64
    requires Balance(m, t.from) >= t.amount + t.fee - (if t.amount + t.fee >= TWO_64 then TWO_64 else 0)
    requires x1 == if t.from == t.to then Balance(m, t.from)
                   else Balance(m, t.from) - t.amount + (if Balance(m, t.from) < t.amount then TWO_64 else 0)
    requires t.from != miner ==>
               z1 == if t.to != miner then Balance(m, miner)
                     else Balance(m, miner) + t.amount - (if Balance(m, miner) + t.amount >= TWO_64 then TWO_64 else 0)
    ensures PayGain(m, t.from, t.to, t.amount) + (if t.from == miner then 0 else Gain(x1, z1, t.fee))
            == if Covered(t, miner, false, m) || WrapsBack(t, miner, m) then 0 else TWO_64
  {
    hide Balance, Gain;
    var x, y, z := Balance(m, t.from), Balance(m, t.to), Balance(m, miner);
    GainsAdd(t.from == t.to, t.from == miner, t.to == miner, x, y, z, t.amount, t.fee, x1, z1);
  }

  /** The same of numbers: the payer holds x, the payee y and the miner z, some of whom
      may be the same, and after the first payment the payer holds x1 and the miner z1. */
  lemma GainsAdd(toSelf: bool, mining: bool, tip: bool, x: uint64, y: uint64, z: uint64, amount: uint64, fee: uint64,
                 x1: uint64, z1: uint64)
    requires x + (if toSelf then 0 else y) + (if mining || tip then 0 else z) < TWO_64
    requires x >= amount + fee - (if amount + fee >= TWO_64 then TWO_64 else 0)
    requires (toSelf ==> x == y && mining == tip) && (mining ==> x == z) && (tip ==> y == z)
    requires mining && tip ==> toSelf
    requires x1 == if toSelf then x else x - amount + (if x < amount then TWO_64 else 0)
    requires !mining ==>
               z1 == if !tip then z else z + amount - (if z + amount >= TWO_64 then TWO_64 else 0)
    ensures (if toSelf then 0 else Gain(x, y, amount)) + (if mining then 0 else Gain(x1, z1, fee))
            == if || x >= (if toSelf then 0 else amount) + (if mining then 0 else fee)
                  || (!toSelf && !tip && y + amount >= TWO_64)
                  || (!mining && !tip && z + fee >= TWO_64)
                  || (tip && y + amount + fee >= TWO_64) then 0 else TWO_64
  {
  }

  lemma Wrapped(x: int, r: int)
    requires -TWO_64 <= x < 2 * TWO_64 && r == x % TWO_64
    ensures r == if x < 0 then x + TWO_64 else if x >= TWO_64 then x - TWO_64 else x
  {
  }

  /** A sum that wraps to zero passes the balance check on an empty wallet: the transfer is
      accepted but not covered, and here nothing wraps back. */
  lemma WrapBreaksConservation(c: Crypto, t: Transaction, miner: Address)
    requires t.Transfer? && t.amount == TWO_64 - 1 && t.fee == 1
    requires t.from != t.to && t.from != miner && t.to != miner
    ensures var m: Balances := map[t.from := 0];
            UpdateStatus(c, t, m, 0, 2) == SUCCESS && Supply(Apply(t, miner, false, m)) == Supply(m) + TWO_64
  {
    var m: Balances := map[t.from := 0];
    SetBalance(map[], t.from, 0);
    assert m == map[][t.from := 0];
    SupplyKeptIff(c, t, miner, m, 0, 2);
  }
}
