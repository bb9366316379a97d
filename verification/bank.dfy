/** The bank keeper as the settlement and funding code see it: one `uvna`
    balance per account, and transfers that either move the whole amount or
    fail without effect. */
module Bank {
  import opened Outcomes

  datatype Account = User(address: string) | Module(name: string)

  /** An account missing from `balances` holds nothing; `modules` is the set of module
      names the account keeper knows a module account for. */
  datatype Bank = Bank(balances: map<Account, nat>, modules: set<string>)

  datatype BankError =
    | UnknownModule(name: string)
    | InsufficientFunds(account: Account, available: nat, requested: nat)

  function Balance(b: Bank, a: Account): nat {
    if a in b.balances then b.balances[a] else 0
  }

  /** A user account always exists; a module account exists when registered. */
  predicate Known(b: Bank, a: Account) {
    a.User? || a.name in b.modules
  }

  /** The bank with account `a` holding `amount`, everything else as before. */
  function WithBalance(b: Bank, a: Account, amount: nat): (b': Bank)
    ensures Balance(b', a) == amount
    ensures forall x :: x != a ==> Balance(b', x) == Balance(b, x)
    ensures b'.modules == b.modules
  {
    b.(balances := b.balances[a := amount])
  }

  /** `SendCoins*` for a single denomination: debits `from` and credits `to`
      by exactly `amount`, or fails and changes nothing. */
  function Send(b: Bank, from: Account, to: Account, amount: nat): (r: Result<Bank, BankError>)
    ensures r.Ok? <==> Known(b, from) && Known(b, to) && amount <= Balance(b, from)
    ensures r.Ok? ==> r.value.modules == b.modules
    ensures r.Ok? && from != to ==>
              Balance(r.value, from) == Balance(b, from) - amount &&
              Balance(r.value, to) == Balance(b, to) + amount
    ensures r.Ok? ==> Balance(r.value, from) + Balance(r.value, to) == Balance(b, from) + Balance(b, to)
    ensures r.Ok? ==> forall x :: x != from && x != to ==> Balance(r.value, x) == Balance(b, x)
  {
    if !Known(b, from) then Err(UnknownModule(from.name))
    else if !Known(b, to) then Err(UnknownModule(to.name))
    else if Balance(b, from) < amount then Err(InsufficientFunds(from, Balance(b, from), amount))
    else
      var debited := WithBalance(b, from, Balance(b, from) - amount);
      Ok(WithBalance(debited, to, Balance(debited, to) + amount))
  }
}
