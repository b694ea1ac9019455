/** The constituent table of an ETF and the rules for registering an ETF and appending
    constituents to it. */
module Registry {
  import opened Types
  import opened Enums

  /** Both fixed tables (constituents, transfer flags) have this many slots. */
  const MAX_WEIGHTED_TOKENS: nat := 100

  /** One constituent: the asset's mint and how many of its units one ETF unit requires, at
      the ETF mint's decimals. */
  datatype WeightedToken = WeightedToken(mint: Pubkey, weight: U64)

  /** A snapshot of a constituent table: `length` entries in use out of `capacity`, stored in
      a fixed array of slots. */
  datatype Table = Table(length: nat, capacity: nat, slots: seq<WeightedToken>)

  /** Every table the program creates has 100 slots and capacity 100, and never more entries
      in use than its capacity. */
  predicate ValidTable(t: Table) {
    |t.slots| == MAX_WEIGHTED_TOKENS && t.capacity == MAX_WEIGHTED_TOKENS && t.length <= t.capacity
  }

  /** A freshly created table: zeroed slots, nothing in use, capacity 100. */
  function EmptyTable(): (t: Table)
    ensures ValidTable(t) && t.length == 0
  {
    Table(0, MAX_WEIGHTED_TOKENS, seq(MAX_WEIGHTED_TOKENS, _ => WeightedToken(0, 0)))
  }

  /** `slots` with `items` written from position `at` on. */
  function Overwrite(slots: seq<WeightedToken>, at: nat, items: seq<WeightedToken>): (r: seq<WeightedToken>)
    requires at + |items| <= |slots|
    ensures |r| == |slots|
    ensures forall k :: 0 <= k < |r| ==> r[k] == if at <= k < at + |items| then items[k - at] else slots[k]
  {
    slots[..at] + items + slots[at + |items|..]
  }

  /** Writing the next item extends the overwritten range by one. */
  lemma OverwriteStep(slots: seq<WeightedToken>, at: nat, items: seq<WeightedToken>, i: nat)
    requires i < |items| && at + i < |slots|
    ensures Overwrite(slots, at, items[..i])[at + i := items[i]] == Overwrite(slots, at, items[..i + 1])
  {
    assert items[..i + 1] == items[..i] + [items[i]];
  }

  /** The check that stops the append loop at item `i` or later, if any: a zero weight,
      a table already at capacity, or a write beyond the last slot. */
  function LoopFailure(t: Table, items: seq<WeightedToken>, i: nat): Option<ProgramError>
    requires i <= |items|
    decreases |items| - i
  {
    if i == |items| then None
    else if items[i].weight == 0 then Some(InvalidArgument)
    else if t.length >= t.capacity then Some(Custom(ETFFull))
    else if t.length + i >= |t.slots| then Some(Panic)
    else LoopFailure(t, items, i + 1)
  }

  /** Appending constituents: only while the ETF is unfinished. Each item is checked in turn
      (weight, capacity, slot bound) and written at position length + i; the length advances
      by the number of items at the end. */
  function PushTokens(status: PrismEtfStatus, t: Table, items: seq<WeightedToken>): Result<Table>
    requires ValidTable(t)
  {
    if status != Unfinished then Err(Custom(IsFinished))
    else match LoopFailure(t, items, 0)
      case Some(e) => Err(e)
      case None =>
        LoopFailureNone(t, items, 0);
        Ok(Table(t.length + |items|, t.capacity, Overwrite(t.slots, t.length, items)))
  }

  /** The loop stops at no item from `i` on exactly when every remaining weight is nonzero and,
      if any item remains, the table is below capacity and the remaining items fit the slots. */
  lemma {:induction false} LoopFailureNone(t: Table, items: seq<WeightedToken>, i: nat)
    requires i <= |items|
    ensures LoopFailure(t, items, i).None? <==>
      && (forall k :: i <= k < |items| ==> items[k].weight > 0)
      && (i < |items| ==> t.length < t.capacity && t.length + |items| <= |t.slots|)
    decreases |items| - i
  {
    if i < |items| {
      LoopFailureNone(t, items, i + 1);
    }
  }

  /** When push_tokens succeeds, and only then: the ETF is unfinished, no weight is zero, and a
      nonempty list fits between the current length and the capacity. */
  lemma PushTokensSucceeds(status: PrismEtfStatus, t: Table, items: seq<WeightedToken>)
    requires ValidTable(t)
    ensures PushTokens(status, t, items).Ok? <==>
      && status == Unfinished
      && (forall k :: 0 <= k < |items| ==> items[k].weight > 0)
      && (items != [] ==> t.length + |items| <= t.capacity)
  {
    LoopFailureNone(t, items, 0);
  }

  /** A successful append puts the new entries at positions old length.. in input order, grows
      the length by exactly their count, leaves every other slot as it was, and keeps the
      length within the capacity. */
  lemma PushTokensAppends(status: PrismEtfStatus, t: Table, items: seq<WeightedToken>)
    requires ValidTable(t) && PushTokens(status, t, items).Ok?
    ensures var t' := PushTokens(status, t, items).value;
      && ValidTable(t')
      && t'.length == t.length + |items|
      && t'.slots[..t.length] == t.slots[..t.length]
      && (forall k :: 0 <= k < |items| ==> t'.slots[t.length + k] == items[k])
      && t'.slots[t'.length..] == t.slots[t'.length..]
  {
    PushTokensSucceeds(status, t, items);
    var t' := PushTokens(status, t, items).value;
    assert t'.slots[t'.length..] == t.slots[t'.length..];
  }

  /** The errors of push_tokens: IsFinished exactly when the ETF is finished; otherwise a zero
      weight gives InvalidArgument, a table already at capacity gives ETFFull, and an append
      that starts below capacity but runs past the last slot aborts. A failed append changes
      nothing (there is no table to return). */
  lemma PushTokensErrors(status: PrismEtfStatus, t: Table, items: seq<WeightedToken>)
    requires ValidTable(t)
    ensures PushTokens(status, t, items) == Err(Custom(IsFinished)) <==> status != Unfinished
    ensures status == Unfinished && items != [] && items[0].weight > 0 && t.length >= t.capacity ==>
      PushTokens(status, t, items) == Err(Custom(ETFFull))
    ensures PushTokens(status, t, items) == Err(InvalidArgument) ==>
      exists k :: 0 <= k < |items| && items[k].weight == 0
    ensures PushTokens(status, t, items) == Err(Custom(ETFFull)) ==> t.length >= t.capacity
    ensures PushTokens(status, t, items) == Err(Panic) ==>
      t.length < t.capacity && t.length + |items| > t.capacity
  {
    if status == Unfinished {
      LoopErrors(t, items, 0);
    }
  }

  lemma {:induction false} LoopErrors(t: Table, items: seq<WeightedToken>, i: nat)
    requires ValidTable(t) && i <= |items|
    ensures LoopFailure(t, items, i) != Some(Custom(IsFinished))
    ensures LoopFailure(t, items, i) == Some(InvalidArgument) ==>
      exists k :: i <= k < |items| && items[k].weight == 0
    ensures LoopFailure(t, items, i) == Some(Custom(ETFFull)) ==> t.length >= t.capacity
    ensures LoopFailure(t, items, i) == Some(Panic) ==>
      t.length < t.capacity && t.length + |items| > t.capacity
    decreases |items| - i
  {
    if i < |items| {
      LoopErrors(t, items, i + 1);
    }
  }

  /** The guards of init_prism_etf, in order: the mint's authority must be the controller's
      owner unless the manager is the owner; then the mint's supply must be zero. */
  function RegistrationCheck(owner: Pubkey, manager: Pubkey, mintAuthority: Pubkey, mintSupply: U64): (r: Outcome)
    ensures r == Fail(Custom(NotMintAuthority)) <==> owner != mintAuthority && manager != owner
    ensures r == Fail(Custom(NonZeroSupply)) <==> (owner == mintAuthority || manager == owner) && mintSupply != 0
    ensures r == Pass <==> (owner == mintAuthority || manager == owner) && mintSupply == 0
  {
    if owner != mintAuthority && manager != owner then Fail(Custom(NotMintAuthority))
    else if mintSupply != 0 then Fail(Custom(NonZeroSupply))
    else Pass
  }
}
