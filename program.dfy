/** The instruction handlers that check and update several accounts and call the token
    program. Each handler is atomic: when it fails, every account and every token balance is
    as it was before. Each is proved against the specification function of its instruction
    (modules Registry and Orders) composed with the token calls that function lists. */
module CoherenceBeamsplitter {
  import opened Types
  import opened Enums
  import opened FixedPoint
  import opened TokenLedger
  import opened Fees
  import opened Registry
  import opened Orders
  import opened Accounts

  /** The new snapshots and balances after a successful instruction. */
  datatype Committed = Committed(step: Step, ledger: Ledger)

  /** An instruction as a whole: its checks and writes, then its token calls; a failure of
      either fails the instruction. */
  function Execute(spec: Result<Step>, ledger: Ledger): Result<Committed> {
    match spec
    case Err(e) => Err(e)
    case Ok(step) =>
      match ApplyAll(ledger, step.effects)
      case Err(e) => Err(e)
      case Ok(ledger') =>
        match step.abort
        case Some(e) => Err(e)
        case None => Ok(Committed(step, ledger'))
  }

  /** A handler's result matches the instruction: on success the order record, the flags and
      the balances are the instruction's; on failure the same error, and nothing changed. */
  predicate Reflects(x: Result<Committed>, r: Outcome, ledger: Ledger, ledger': Ledger,
                     order: Order, flags: Flags, order0: Order, flags0: Flags)
  {
    && (r == Pass <==> x.Ok?)
    && (x.Ok? ==> order == x.value.step.order && flags == x.value.step.flags && ledger' == x.value.ledger)
    && (x.Err? ==> r == Fail(x.error) && order == order0 && flags == flags0 && ledger' == ledger)
  }

  /** A successful instruction's token calls, applied to the balances, change the ETF's supply
      by what they mint minus what they burn. */
  lemma ExecuteSupply(spec: Result<Step>, ledger: Ledger, mint: Pubkey)
    requires Execute(spec, ledger).Ok?
    ensures var x := Execute(spec, ledger).value;
      Supply(x.ledger, mint) == Supply(ledger, mint) + Minted(x.step.effects, mint) - Burned(x.step.effects, mint)
  {
    SupplyChange(ledger, spec.value.effects, mint);
  }

  /** init_prism_etf: the new record is written from the controller's settings, then the mint
      is checked (the two values the token-account accessors return for it are passed in here);
      a failed check discards the record. */
  method InitPrismEtf(controller: Beamsplitter, manager: Pubkey, bump: U8, weightedTokens: Pubkey,
                      mintAuthority: Pubkey, mintSupply: U64) returns (r: Result<PrismEtf>)
    ensures var check := RegistrationCheck(controller.owner, manager, mintAuthority, mintSupply);
      && (r.Ok? <==> check == Pass)
      && (r.Err? ==> check == Fail(r.error))
    ensures r.Ok? ==>
      && fresh(r.value)
      && r.value.Record() == EtfRecord(manager, bump, weightedTokens, Unfinished,
                                       controller.defaultConstructionBps, controller.defaultDeconstructionBps,
                                       controller.defaultManagerCut, Off, Never)
  {
    var etf := new PrismEtf.Create(manager, bump, weightedTokens, controller);
    if controller.owner != mintAuthority && manager != controller.owner {
      return Err(Custom(NotMintAuthority));
    }
    if mintSupply != 0 {
      return Err(Custom(NonZeroSupply));
    }
    return Ok(etf);
  }

  /** push_tokens: each item is checked and written at length + i in turn; the length grows at
      the end. A failure part way discards the slots already written. */
  method PushTokens(etf: PrismEtf, wt: WeightedTokens, items: seq<WeightedToken>) returns (r: Outcome)
    requires wt.Valid()
    modifies wt, wt.slots
    ensures wt.Valid()
    ensures var spec := Registry.PushTokens(old(etf.status), old(wt.State()), items);
      && (r == Pass <==> spec.Ok?)
      && (spec.Ok? ==> wt.State() == spec.value)
      && (spec.Err? ==> r == Fail(spec.error) && wt.State() == old(wt.State()))
  {
    if etf.status != Unfinished {
      return Fail(Custom(IsFinished));
    }
    ghost var t := wt.State();
    var saved := wt.slots[..];
    var i := 0;
    while i < |items|
      invariant 0 <= i <= |items|
      invariant wt.Valid() && wt.length == t.length && wt.capacity == t.capacity
      invariant wt.length + i <= wt.slots.Length
      invariant LoopFailure(t, items, 0) == LoopFailure(t, items, i)
      invariant wt.slots[..] == Overwrite(saved, wt.length, items[..i])
    {
      if items[i].weight == 0 {
        wt.Restore(saved);
        return Fail(InvalidArgument);
      }
      if wt.length >= wt.capacity {
        wt.Restore(saved);
        return Fail(Custom(ETFFull));
      }
      if wt.length + i >= wt.slots.Length {
        wt.Restore(saved);
        return Fail(Panic);
      }
      OverwriteStep(saved, wt.length, items, i);
      wt.slots[wt.length + i] := items[i];
      i := i + 1;
    }
    assert items[..i] == items;
    LoopFailureNone(t, items, 0);
    wt.length := wt.length + |items|;
    return Pass;
  }

  /** start_order: the guards, then the order record and the flag count are written and, for
      a deconstruction, the orderer's ETF tokens are burnt; a failed burn undoes the writes. */
  method StartOrder(etf: PrismEtf, wt: WeightedTokens, tt: TransferredTokens, order: OrderState,
                    orderType: OrderType, amount: U64, accounts: EtfAccounts, ledger: Ledger)
    returns (r: Outcome, ledger': Ledger)
    requires wt.Valid() && tt.Valid()
    modifies order, tt
    ensures tt.Valid() && order.bump == old(order.bump) && order.transferredTokens == old(order.transferredTokens)
    ensures Reflects(Execute(Orders.StartOrder(old(order.Current()), etf.status, wt.State(), old(tt.State()),
                                               orderType, amount, accounts), ledger),
                     r, ledger, ledger', order.Current(), tt.State(), old(order.Current()), old(tt.State()))
  {
    if order.status == Pending || etf.status != Finished || amount == 0 {
      return Fail(InvalidArgument), ledger;
    }
    var (amount0, orderType0, status0, length0) := (order.amount, order.orderType, order.status, tt.length);
    order.amount := amount;
    order.orderType := orderType;
    order.status := Pending;
    tt.length := wt.length;
    var effects := if orderType == Construction then [] else [Burn(accounts.mint, accounts.orderer, amount)];
    var applied := ApplyAll(ledger, effects);
    if applied.Err? {
      order.amount, order.orderType, order.status, tt.length := amount0, orderType0, status0, length0;
      return Fail(applied.error), ledger;
    }
    return Pass, applied.value;
  }

  /** cohere: the flag is set before the amount is converted and paid; a failure of either
      clears it again. */
  method Cohere(wt: WeightedTokens, tt: TransferredTokens, order: OrderState, index: U16,
                transferMint: Pubkey, delegated: U64, decimals: U8, source: Pubkey, custody: Pubkey,
                ledger: Ledger) returns (r: Outcome, ledger': Ledger)
    requires wt.Valid() && tt.Valid()
    modifies tt.bits
    ensures Reflects(Execute(Orders.Cohere(order.Current(), wt.State(), old(tt.State()), index, transferMint,
                                           delegated, decimals, source, custody), ledger),
                     r, ledger, ledger', order.Current(), tt.State(), order.Current(), old(tt.State()))
  {
    if order.status != Pending {
      return Fail(Custom(IncorrectOrderStatus)), ledger;
    }
    if order.orderType != Construction {
      return Fail(Custom(IncorrectOrderType)), ledger;
    }
    if index >= tt.bits.Length {
      return Fail(Panic), ledger;
    }
    if tt.bits[index] {
      return Pass, ledger;
    }
    if index >= wt.length {
      return Fail(Custom(IndexPassedBound)), ledger;
    }
    if wt.slots[index].mint != transferMint {
      return Fail(Custom(WrongIndexMint)), ledger;
    }
    var weight := wt.slots[index].weight;
    if ProductOverflows(order.amount, weight) {
      return Fail(Panic), ledger;
    }
    var required := RequiredAmount(order.amount, weight, decimals);
    if required.None? {
      return Fail(Custom(ScaleFailure)), ledger;
    }
    if Less(FromUnsigned(delegated), required.value) {
      return Fail(Custom(NotEnoughApproved)), ledger;
    }
    tt.bits[index] := true;
    var paid := CohereTransferAmount(required.value);
    if paid.Err? {
      tt.bits[index] := false;
      return Fail(paid.error), ledger;
    }
    var applied := ApplyAll(ledger, [Transfer(source, custody, paid.value)]);
    if applied.Err? {
      tt.bits[index] := false;
      return Fail(applied.error), ledger;
    }
    return Pass, applied.value;
  }

  /** decohere: the guards, then the flag is set before the amount is computed and paid out
      of custody; a failure after that clears it again. */
  method Decohere(wt: WeightedTokens, tt: TransferredTokens, order: OrderState, index: U16,
                  transferMint: Pubkey, decimals: U8, custody: Pubkey, destination: Pubkey,
                  ledger: Ledger) returns (r: Outcome, ledger': Ledger)
    requires wt.Valid() && tt.Valid()
    modifies tt.bits
    ensures Reflects(Execute(Orders.Decohere(order.Current(), wt.State(), old(tt.State()), index, transferMint,
                                             decimals, custody, destination), ledger),
                     r, ledger, ledger', order.Current(), tt.State(), order.Current(), old(tt.State()))
  {
    if order.status != Pending || order.orderType != Deconstruction {
      return Fail(InvalidArgument), ledger;
    }
    if index >= tt.bits.Length {
      return Fail(Panic), ledger;
    }
    if tt.bits[index] || index >= wt.capacity || wt.slots[index].mint != transferMint {
      return Fail(InvalidArgument), ledger;
    }
    tt.bits[index] := true;
    var weight := wt.slots[index].weight;
    if ProductOverflows(order.amount, weight) {
      tt.bits[index] := false;
      return Fail(Panic), ledger;
    }
    var required := RequiredAmount(order.amount, weight, decimals);
    var paid := if required.Some? then ToU64(required.value) else None;
    if paid.None? {
      tt.bits[index] := false;
      return Fail(InvalidArgument), ledger;
    }
    var applied := ApplyAll(ledger, [Transfer(custody, destination, paid.value)]);
    if applied.Err? {
      tt.bits[index] := false;
      return Fail(applied.error), ledger;
    }
    return Pass, applied.value;
  }

  /** finalize_order: the flags of the order are checked and cleared one by one; a clear flag
      stops the instruction and discards the flags already cleared. */
  method FinalizeOrder(etf: PrismEtf, tt: TransferredTokens, order: OrderState,
                       accounts: EtfAccounts, ledger: Ledger) returns (r: Outcome, ledger': Ledger)
    requires tt.Valid()
    modifies order, tt.bits
    ensures order.bump == old(order.bump) && order.transferredTokens == old(order.transferredTokens)
    ensures Reflects(Execute(Orders.FinalizeOrder(old(order.Current()), old(tt.State()), etf.constructionBps,
                                                  etf.managerCut, accounts), ledger),
                     r, ledger, ledger', order.Current(), tt.State(), old(order.Current()), old(tt.State()))
  {
    if order.status != Pending {
      return Fail(InvalidArgument), ledger;
    }
    ghost var f := tt.State();
    var saved := tt.bits[..];
    var i := 0;
    while i < tt.length
      modifies tt.bits
      invariant 0 <= i <= tt.length && tt.State().length == f.length
      invariant forall k :: 0 <= k < i ==> saved[k] && !tt.bits[k]
      invariant forall k :: i <= k < tt.bits.Length ==> tt.bits[k] == saved[k]
    {
      if !tt.bits[i] {
        tt.Restore(saved);
        return Fail(Custom(StillPending)), ledger;
      }
      tt.bits[i] := false;
      i := i + 1;
    }
    assert AllTransferred(f);
    assert tt.bits[..] == ClearPrefix(saved, tt.length);
    var ledger1 := ledger;
    if order.orderType == Construction {
      var split := SplitConstructionFee(order.amount, etf.constructionBps, etf.managerCut);
      if split.Err? {
        tt.Restore(saved);
        return Fail(split.error), ledger;
      }
      var minted := MintShares(split.value, accounts, ledger);
      if minted.Err? {
        tt.Restore(saved);
        return Fail(minted.error), ledger;
      }
      ledger1 := minted.value;
    }
    order.status := Succeeded;
    return Pass, ledger1;
  }

  /** The mints at the end of a construction's finalize_order: each share is converted and
      minted in turn, orderer, owner, manager. The first conversion or mint that fails ends
      the sequence with its error. */
  method MintShares(s: Shares, accounts: EtfAccounts, ledger: Ledger) returns (r: Result<Ledger>)
    ensures var (calls, abort) := ShareMints(s, accounts);
      r == match ApplyAll(ledger, calls)
           case Err(e) => Err(e)
           case Ok(l) => if abort.Some? then Err(abort.value) else Ok(l)
  {
    var orderer := ToU64(s.orderer);
    if orderer.None? {
      return Err(InvalidArgument);
    }
    var first := MintTo(accounts.mint, accounts.orderer, orderer.value);
    ApplyAllSnoc(ledger, [], first);
    assert [] + [first] == [first];
    var afterOrderer := Apply(ledger, first);
    if afterOrderer.Err? {
      return Err(afterOrderer.error);
    }
    var owner := ToU64(s.owner);
    if owner.None? {
      return Err(InvalidArgument);
    }
    var second := MintTo(accounts.mint, accounts.owner, owner.value);
    ApplyAllSnoc(ledger, [first], second);
    var afterOwner := Apply(afterOrderer.value, second);
    if afterOwner.Err? {
      return Err(afterOwner.error);
    }
    var manager := ToU64(s.manager);
    if manager.None? {
      return Err(InvalidArgument);
    }
    var third := MintTo(accounts.mint, accounts.manager, manager.value);
    ApplyAllSnoc(ledger, [first, second], third);
    assert [first] + [second] == [first, second];
    assert [first, second] + [third] == [first, second, third];
    r := Apply(afterOwner.value, third);
  }
}
