/** An abstract token program: balances of token accounts and supplies of mints, changed by the
    transfer, mint and burn calls the beamsplitter issues. */
module TokenLedger {
  import opened Types

  /** One call into the token program. */
  datatype Effect =
    | Transfer(source: Pubkey, destination: Pubkey, amount: U64)
    | MintTo(mint: Pubkey, destination: Pubkey, amount: U64)
    | Burn(mint: Pubkey, source: Pubkey, amount: U64)

  /** Accounts and mints missing from the maps hold zero. */
  datatype Ledger = Ledger(balances: map<Pubkey, U64>, supply: map<Pubkey, U64>)

  function Balance(l: Ledger, account: Pubkey): U64 {
    if account in l.balances then l.balances[account] else 0
  }

  function Supply(l: Ledger, mint: Pubkey): U64 {
    if mint in l.supply then l.supply[mint] else 0
  }

  /** One call: a transfer or a burn fails when the source holds too little, a transfer or a
      mint fails when a 64-bit balance or supply would overflow. */
  function Apply(l: Ledger, e: Effect): Result<Ledger> {
    match e
    case Transfer(source, destination, amount) =>
      if Balance(l, source) < amount then Err(TokenFailure)
      else
        var debited := l.(balances := l.balances[source := Balance(l, source) - amount]);
        if Balance(debited, destination) + amount > U64_MAX then Err(TokenFailure)
        else Ok(debited.(balances := debited.balances[destination := Balance(debited, destination) + amount]))
    case MintTo(mint, destination, amount) =>
      if Supply(l, mint) + amount > U64_MAX || Balance(l, destination) + amount > U64_MAX then Err(TokenFailure)
      else Ok(Ledger(l.balances[destination := Balance(l, destination) + amount],
                     l.supply[mint := Supply(l, mint) + amount]))
    case Burn(mint, source, amount) =>
      if Balance(l, source) < amount || Supply(l, mint) < amount then Err(TokenFailure)
      else Ok(Ledger(l.balances[source := Balance(l, source) - amount],
                     l.supply[mint := Supply(l, mint) - amount]))
  }

  /** The calls of one instruction, in order; the first failure fails them all. */
  function ApplyAll(l: Ledger, es: seq<Effect>): Result<Ledger>
    decreases |es|
  {
    if es == [] then Ok(l)
    else match Apply(l, es[0])
      case Err(e) => Err(e)
      case Ok(l') => ApplyAll(l', es[1..])
  }

  /** How much of `mint` a list of calls creates, and how much it destroys. */
  function Minted(es: seq<Effect>, mint: Pubkey): nat
    decreases |es|
  {
    if es == [] then 0
    else (if es[0].MintTo? && es[0].mint == mint then es[0].amount else 0) + Minted(es[1..], mint)
  }

  function Burned(es: seq<Effect>, mint: Pubkey): nat
    decreases |es|
  {
    if es == [] then 0
    else (if es[0].Burn? && es[0].mint == mint then es[0].amount else 0) + Burned(es[1..], mint)
  }

  /** The combined balance of a list of token accounts. */
  function Total(l: Ledger, accounts: seq<Pubkey>): int
    decreases |accounts|
  {
    if accounts == [] then 0 else Balance(l, accounts[0]) + Total(l, accounts[1..])
  }

  predicate Distinct(accounts: seq<Pubkey>) {
    forall i, j :: 0 <= i < j < |accounts| ==> accounts[i] != accounts[j]
  }

  /** Setting one balance changes the total of a list that holds that account once by the
      difference, and the total of a list without it not at all. */
  lemma {:induction false} TotalUpdate(l: Ledger, accounts: seq<Pubkey>, a: Pubkey, v: U64)
    requires Distinct(accounts)
    ensures Total(l.(balances := l.balances[a := v]), accounts) ==
      Total(l, accounts) + (if a in accounts then v - Balance(l, a) else 0)
    decreases |accounts|
  {
    if accounts != [] {
      assert Distinct(accounts[1..]) by {
        forall i, j | 0 <= i < j < |accounts[1..]| ensures accounts[1..][i] != accounts[1..][j] {
          assert accounts[1..][i] == accounts[i + 1] && accounts[1..][j] == accounts[j + 1];
        }
      }
      TotalUpdate(l, accounts[1..], a, v);
      if accounts[0] == a {
        assert a !in accounts[1..] by {
          forall k | 0 <= k < |accounts[1..]| ensures accounts[1..][k] != a {
            assert accounts[1..][k] == accounts[k + 1];
          }
        }
      }
    }
  }

  /** A list of transfers only moves tokens: no supply changes, and the accounts it moves
      tokens between hold together as much after it as before. */
  lemma {:induction false} TransfersConserve(l: Ledger, es: seq<Effect>, accounts: seq<Pubkey>)
    requires Distinct(accounts)
    requires forall k :: 0 <= k < |es| ==> es[k].Transfer? && es[k].source in accounts && es[k].destination in accounts
    requires ApplyAll(l, es).Ok?
    ensures ApplyAll(l, es).value.supply == l.supply
    ensures Total(ApplyAll(l, es).value, accounts) == Total(l, accounts)
    decreases |es|
  {
    if es != [] {
      TransferConserves(l, es[0], accounts);
      assert forall k :: 0 <= k < |es[1..]| ==> es[1..][k] == es[k + 1];
      TransfersConserve(Apply(l, es[0]).value, es[1..], accounts);
    }
  }

  /** One transfer between two listed accounts keeps their total and every supply. */
  lemma TransferConserves(l: Ledger, e: Effect, accounts: seq<Pubkey>)
    requires Distinct(accounts)
    requires e.Transfer? && e.source in accounts && e.destination in accounts
    requires Apply(l, e).Ok?
    ensures Apply(l, e).value.supply == l.supply
    ensures Total(Apply(l, e).value, accounts) == Total(l, accounts)
  {
    var debited := l.(balances := l.balances[e.source := Balance(l, e.source) - e.amount]);
    TotalUpdate(l, accounts, e.source, Balance(l, e.source) - e.amount);
    TotalUpdate(debited, accounts, e.destination, Balance(debited, e.destination) + e.amount);
  }

  /** Issuing one more call after a list of calls: the list first, then the call. */
  lemma {:induction false} ApplyAllSnoc(l: Ledger, es: seq<Effect>, e: Effect)
    ensures ApplyAll(l, es + [e]) ==
      match ApplyAll(l, es)
      case Err(err) => Err(err)
      case Ok(l') => Apply(l', e)
    decreases |es|
  {
    if es == [] {
      assert es + [e] == [e];
      assert [e][1..] == [];
    } else {
      assert (es + [e])[0] == es[0] && (es + [e])[1..] == es[1..] + [e];
      match Apply(l, es[0])
      case Err(_) =>
      case Ok(l') => ApplyAllSnoc(l', es[1..], e);
    }
  }

  /** Applying a list of calls changes the supply of a mint by exactly what the list mints
      minus what it burns. */
  lemma {:induction false} SupplyChange(l: Ledger, es: seq<Effect>, mint: Pubkey)
    requires ApplyAll(l, es).Ok?
    ensures Supply(ApplyAll(l, es).value, mint) == Supply(l, mint) + Minted(es, mint) - Burned(es, mint)
    decreases |es|
  {
    if es != [] {
      var l' := Apply(l, es[0]).value;
      SupplyChange(l', es[1..], mint);
    }
  }
}
