/** The wallet store: an updatable map from addresses to 64-bit balances.  The
    operations that the source guards with an exception report it as `ok`. */
module Ledgers {
  import opened Words

  type Balances = map<Address, uint64>

  /** The balance of a wallet; a wallet that does not exist holds nothing. */
  function Balance(m: Balances, w: Address): uint64 {
    if w in m then m[w] else 0
  }

  function Credit(m: Balances, w: Address, amount: uint64): Balances {
    m[w := Add64(Balance(m, w), amount)]
  }

  function Debit(m: Balances, w: Address, amount: uint64): Balances {
    m[w := Sub64(Balance(m, w), amount)]
  }

  class Ledger {
    var wallets: Balances

    constructor ()
      ensures wallets == map[]
    {
      wallets := map[];
    }

    method Clear()
      modifies this
      ensures wallets == map[]
    {
      wallets := map[];
    }

    method HasWallet(w: Address) returns (found: bool)
      ensures found <==> w in wallets
    {
      found := w in wallets;
    }

    method CreateWallet(w: Address) returns (ok: bool)
      modifies this
      ensures ok <==> w !in old(wallets)
      ensures wallets == if ok then old(wallets)[w := 0] else old(wallets)
    {
      ok := w !in wallets;
      if ok {
        SetWalletValue(w, 0);
      }
    }

    method SetWalletValue(w: Address, amount: uint64)
      modifies this
      ensures wallets == old(wallets)[w := amount]
    {
      wallets := wallets[w := amount];
    }

    method GetWalletValue(w: Address) returns (ok: bool, value: uint64)
      ensures ok <==> w in wallets
      ensures value == Balance(wallets, w)
    {
      if w in wallets {
        ok, value := true, wallets[w];
      } else {
        ok, value := false, 0;
      }
    }

    method Withdraw(w: Address, amount: uint64) returns (ok: bool)
      modifies this
      ensures ok <==> w in old(wallets)
      ensures wallets == if ok then Debit(old(wallets), w, amount) else old(wallets)
    {
      var value;
      ok, value := GetWalletValue(w);
      if ok {
        SetWalletValue(w, Sub64(value, amount));
      }
    }

    method RevertSend(w: Address, amount: uint64) returns (ok: bool)
      modifies this
      ensures ok <==> w in old(wallets)
      ensures wallets == if ok then Credit(old(wallets), w, amount) else old(wallets)
    {
      var value;
      ok, value := GetWalletValue(w);
      if ok {
        SetWalletValue(w, Add64(value, amount));
      }
    }

    method Deposit(w: Address, amount: uint64) returns (ok: bool)
      modifies this
      ensures ok <==> w in old(wallets)
      ensures wallets == if ok then Credit(old(wallets), w, amount) else old(wallets)
    {
      var value;
      ok, value := GetWalletValue(w);
      if ok {
        SetWalletValue(w, Add64(value, amount));
      }
    }

    method RevertDeposit(w: Address, amount: uint64) returns (ok: bool)
      modifies this
      ensures ok <==> w in old(wallets)
      ensures wallets == if ok then Debit(old(wallets), w, amount) else old(wallets)
    {
      var value;
      ok, value := GetWalletValue(w);
      if ok {
        SetWalletValue(w, Sub64(value, amount));
      }
    }
  }
}
