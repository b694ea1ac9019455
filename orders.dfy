/** The life cycle of one order, as pure functions over snapshots of the order record, the
    constituent table and the transfer flags: `start_order`, `cohere`, `decohere` and
    `finalize_order`. Each returns the new snapshots and the token-program calls it issues,
    or the error that aborts it. */
module Orders {
  import opened Types
  import opened Enums
  import opened FixedPoint
  import opened TokenLedger
  import opened Fees
  import opened Registry

  /** The order record of one orderer and ETF. */
  datatype Order = Order(orderType: OrderType, status: OrderStatus, amount: U64)

  /** The transfer flags of an order: one per constituent slot, of which the first `length`
      belong to the order in flight. */
  datatype Flags = Flags(length: nat, capacity: nat, bits: seq<bool>)

  predicate ValidFlags(f: Flags) {
    |f.bits| == MAX_WEIGHTED_TOKENS && f.capacity == MAX_WEIGHTED_TOKENS && f.length <= f.capacity
  }

  /** A new order record (init_order_state): the account starts zero-filled, so the type is
      the first variant (deconstruction) and the amount 0; the status is set to succeeded so
      that an order can be started. */
  function NewOrder(): (o: Order)
    ensures o.status != Pending && o.amount == 0
  {
    Order(Deconstruction, Succeeded, 0)
  }

  /** A new flag table (init_transferred_tokens): no flag set, nothing in use, capacity 100. */
  function NewFlags(): (f: Flags)
    ensures ValidFlags(f) && f.length == 0
    ensures forall k :: 0 <= k < |f.bits| ==> !f.bits[k]
  {
    Flags(0, MAX_WEIGHTED_TOKENS, seq(MAX_WEIGHTED_TOKENS, _ => false))
  }

  /** The outcome of an instruction that passed its checks: the new order record and flags,
      and the calls into the token program, in the order they are made. `abort` is an error
      the instruction raises after those calls (only finalize_order does so, when a share
      fails to convert between its mints); it discards every write and call. */
  datatype Step = Step(order: Order, flags: Flags, effects: seq<Effect>, abort: Option<ProgramError> := None)

  /** The instruction succeeds as a whole, unless a token call fails. */
  predicate Completes(r: Result<Step>) {
    r.Ok? && r.value.abort.None?
  }

  /** The token accounts an order's ETF tokens move between. */
  datatype EtfAccounts = EtfAccounts(mint: Pubkey, orderer: Pubkey, owner: Pubkey, manager: Pubkey)

  /** Every constituent of the order in flight has been transferred. */
  predicate AllTransferred(f: Flags)
    requires ValidFlags(f)
  {
    forall k :: 0 <= k < f.length ==> f.bits[k]
  }

  /** The flags with the first `n` cleared and the rest kept. */
  function ClearPrefix(bits: seq<bool>, n: nat): (r: seq<bool>)
    ensures |r| == |bits|
    ensures forall k :: 0 <= k < |r| ==> r[k] == (k >= n && bits[k])
  {
    seq(|bits|, k requires 0 <= k < |bits| => k >= n && bits[k])
  }

  // ---------------------------------------------------------------------------------------
  // start_order

  /** Starting an order: refused while an order is pending, while the ETF is still being built,
      and for a zero amount. Otherwise the order becomes pending with the given type and
      amount, the flag table takes the constituent count, and a deconstruction burns the
      orderer's ETF tokens. */
  function StartOrder(order: Order, etfStatus: PrismEtfStatus, t: Table, f: Flags,
                      orderType: OrderType, amount: U64, etf: EtfAccounts): Result<Step>
    requires ValidTable(t) && ValidFlags(f)
  {
    if order.status == Pending then Err(InvalidArgument)
    else if etfStatus != Finished then Err(InvalidArgument)
    else if amount == 0 then Err(InvalidArgument)
    else
      var effects := if orderType == Construction then [] else [Burn(etf.mint, etf.orderer, amount)];
      Ok(Step(Order(orderType, Pending, amount), f.(length := t.length), effects))
  }

  /** start_order succeeds exactly when no order is pending, the ETF is finished and the amount
      is positive. It then leaves a pending order of the requested type and amount, sizes the
      flags to the constituent table without touching them, and makes one token call: a burn of
      the amount from the orderer's ETF account for a deconstruction, and none for a
      construction; it never mints. */
  lemma StartOrderContract(order: Order, etfStatus: PrismEtfStatus, t: Table, f: Flags,
                           orderType: OrderType, amount: U64, etf: EtfAccounts)
    requires ValidTable(t) && ValidFlags(f)
    ensures var r := StartOrder(order, etfStatus, t, f, orderType, amount, etf);
      && (r.Ok? <==> order.status != Pending && etfStatus == Finished && amount > 0)
      && (r.Err? ==> r.error == InvalidArgument)
      && (r.Ok? ==>
            && r.value.order == Order(orderType, Pending, amount)
            && ValidFlags(r.value.flags)
            && r.value.flags.length == t.length
            && r.value.flags.bits == f.bits
            && r.value.effects == (if orderType == Construction then [] else [Burn(etf.mint, etf.orderer, amount)])
            && Minted(r.value.effects, etf.mint) == 0
            && Burned(r.value.effects, etf.mint) == (if orderType == Deconstruction then amount else 0))
  {
    var r := StartOrder(order, etfStatus, t, f, orderType, amount, etf);
    if r.Ok? && orderType == Deconstruction {
      assert r.value.effects[1..] == [];
    }
  }

  // ---------------------------------------------------------------------------------------
  // cohere

  /** Paying in one constituent of a pending construction: the flag of `index` is read first
      (a set flag ends the instruction successfully with nothing done), then the index is
      bounded by the constituent count and the mint checked; the owed amount is
      amount·weight at the ETF's decimals, which the delegated allowance must cover; the flag
      is set and the owed amount, truncated and at least one unit, moves from the orderer's
      account to the program's custody account. */
  function Cohere(order: Order, t: Table, f: Flags, index: U16, transferMint: Pubkey,
                  delegated: U64, decimals: U8, source: Pubkey, custody: Pubkey): Result<Step>
    requires ValidTable(t) && ValidFlags(f)
  {
    if order.status != Pending then Err(Custom(IncorrectOrderStatus))
    else if order.orderType != Construction then Err(Custom(IncorrectOrderType))
    else if index >= |f.bits| then Err(Panic)
    else if f.bits[index] then Ok(Step(order, f, []))
    else if index >= t.length then Err(Custom(IndexPassedBound))
    else if t.slots[index].mint != transferMint then Err(Custom(WrongIndexMint))
    else if ProductOverflows(order.amount, t.slots[index].weight) then Err(Panic)
    else match RequiredAmount(order.amount, t.slots[index].weight, decimals)
      case None => Err(Custom(ScaleFailure))
      case Some(required) =>
        if Less(FromUnsigned(delegated), required) then Err(Custom(NotEnoughApproved))
        else match CohereTransferAmount(required)
          case Err(e) => Err(e)
          case Ok(q) => Ok(Step(order, f.(bits := f.bits[index := true]), [Transfer(source, custody, q)]))
  }

  /** A cohere that moves tokens did so for a constituent of the order in flight whose flag was
      clear: it sets exactly that flag, leaves the order record alone, was covered by the
      allowance (delegated·10^decimals ≥ amount·weight) and transfers
      max(1, ⌊amount·weight / 10^decimals⌋) from the orderer to custody. */
  lemma CohereTransfers(order: Order, t: Table, f: Flags, index: U16, transferMint: Pubkey,
                        delegated: U64, decimals: U8, source: Pubkey, custody: Pubkey)
    requires ValidTable(t) && ValidFlags(f)
    requires Cohere(order, t, f, index, transferMint, delegated, decimals, source, custody).Ok?
    requires Cohere(order, t, f, index, transferMint, delegated, decimals, source, custody).value.effects != []
    ensures var s := Cohere(order, t, f, index, transferMint, delegated, decimals, source, custody).value;
      var w := t.slots[index].weight;
      && order.status == Pending && order.orderType == Construction
      && index < t.length && !f.bits[index] && t.slots[index].mint == transferMint
      && s.order == order
      && s.flags == f.(bits := f.bits[index := true])
      && delegated * Pow10(decimals) >= order.amount * w
      && s.effects == [Transfer(source, custody, Max(1, order.amount * w / Pow10(decimals)))]
  {
    var w := t.slots[index].weight;
    CohereAmount(order.amount, w, decimals, delegated);
  }

  /** A cohere whose flag is already set succeeds without doing anything, whatever the index
      and mint passed (the flag is read before the bound and mint checks); that includes
      every repeat of a cohere that went through, so a constituent is paid in at most once
      per order. */
  lemma CohereRepeatIsNoOp(order: Order, t: Table, f: Flags, index: U16, transferMint: Pubkey,
                           delegated: U64, decimals: U8, source: Pubkey, custody: Pubkey)
    requires ValidTable(t) && ValidFlags(f)
    requires Cohere(order, t, f, index, transferMint, delegated, decimals, source, custody).Ok?
    ensures var s := Cohere(order, t, f, index, transferMint, delegated, decimals, source, custody).value;
      && ValidFlags(s.flags)
      && s.flags.bits[index]
      && forall mint', delegated', decimals', source', custody' ::
           Cohere(s.order, t, s.flags, index, mint', delegated', decimals', source', custody') == Ok(Step(s.order, s.flags, []))
  {
  }

  /** The errors of cohere, each in terms of the inputs: status, type, the slot bound, the
      constituent count, the mint, the 96-bit product, the scale limit and the allowance, each
      checked only when the ones before it passed; and a set flag never errs. */
  lemma CohereErrors(order: Order, t: Table, f: Flags, index: U16, transferMint: Pubkey,
                     delegated: U64, decimals: U8, source: Pubkey, custody: Pubkey)
    requires ValidTable(t) && ValidFlags(f)
    ensures var r := Cohere(order, t, f, index, transferMint, delegated, decimals, source, custody);
      var ready := order.status == Pending && order.orderType == Construction && index < |f.bits| && !f.bits[index];
      && (r == Err(Custom(IncorrectOrderStatus)) <==> order.status != Pending)
      && (r == Err(Custom(IncorrectOrderType)) <==> order.status == Pending && order.orderType != Construction)
      && (r == Err(Custom(IndexPassedBound)) <==> ready && index >= t.length)
      && (r == Err(Custom(WrongIndexMint)) <==> ready && index < t.length && t.slots[index].mint != transferMint)
      && (r == Err(Custom(ScaleFailure)) <==>
            Identified(order, t, f, index, transferMint) && !ProductOverflows(order.amount, t.slots[index].weight) && decimals > MAX_PRECISION)
      && (r == Err(Custom(NotEnoughApproved)) <==>
            Identified(order, t, f, index, transferMint) && !ProductOverflows(order.amount, t.slots[index].weight) && decimals <= MAX_PRECISION
            && delegated * Pow10(decimals) < order.amount * t.slots[index].weight)
      && (r.Err? && order.status == Pending && order.orderType == Construction && index < |f.bits| ==> !f.bits[index])
  {
    if Identified(order, t, f, index, transferMint) && !ProductOverflows(order.amount, t.slots[index].weight)
       && decimals <= MAX_PRECISION {
      CohereAmount(order.amount, t.slots[index].weight, decimals, delegated);
    }
  }

  /** A cohere that got past the flag, bound and mint checks. */
  predicate Identified(order: Order, t: Table, f: Flags, index: U16, transferMint: Pubkey)
    requires ValidTable(t) && ValidFlags(f)
  {
    order.status == Pending && order.orderType == Construction && index < |f.bits| && !f.bits[index]
    && index < t.length && t.slots[index].mint == transferMint
  }

  // ---------------------------------------------------------------------------------------
  // decohere

  /** Paying out one constituent of a pending deconstruction: the flag of `index` must be clear,
      the index below the table's capacity and the slot's mint the one passed; the flag is set
      and amount·weight at the ETF's decimals, truncated, moves from custody to the orderer.
      Every refusal is InvalidArgument. */
  function Decohere(order: Order, t: Table, f: Flags, index: U16, transferMint: Pubkey,
                    decimals: U8, custody: Pubkey, destination: Pubkey): Result<Step>
    requires ValidTable(t) && ValidFlags(f)
  {
    if order.status != Pending then Err(InvalidArgument)
    else if order.orderType != Deconstruction then Err(InvalidArgument)
    else if index >= |f.bits| then Err(Panic)
    else if f.bits[index] then Err(InvalidArgument)
    else if index >= t.capacity then Err(InvalidArgument)
    else if t.slots[index].mint != transferMint then Err(InvalidArgument)
    else if ProductOverflows(order.amount, t.slots[index].weight) then Err(Panic)
    else match RequiredAmount(order.amount, t.slots[index].weight, decimals)
      case None => Err(InvalidArgument)
      case Some(required) =>
        match ToU64(required)
        case None => Err(InvalidArgument)
        case Some(q) => Ok(Step(order, f.(bits := f.bits[index := true]), [Transfer(custody, destination, q)]))
  }

  /** decohere succeeds exactly when the order is a pending deconstruction, the slot's flag is
      clear, its mint matches, and ⌊amount·weight / 10^decimals⌋ is a 64-bit value (with the
      product in 96 bits and the decimals at most 28). It then sets exactly that flag and pays
      out that truncated amount, which may be zero. */
  lemma DecohereContract(order: Order, t: Table, f: Flags, index: U16, transferMint: Pubkey,
                         decimals: U8, custody: Pubkey, destination: Pubkey)
    requires ValidTable(t) && ValidFlags(f)
    ensures var r := Decohere(order, t, f, index, transferMint, decimals, custody, destination);
      && (r.Ok? <==>
            && order.status == Pending && order.orderType == Deconstruction
            && index < |f.bits| && !f.bits[index] && t.slots[index].mint == transferMint
            && !ProductOverflows(order.amount, t.slots[index].weight) && decimals <= MAX_PRECISION
            && order.amount * t.slots[index].weight / Pow10(decimals) <= U64_MAX)
      && (r.Ok? ==>
            && r.value.order == order
            && r.value.flags == f.(bits := f.bits[index := true])
            && r.value.effects == [Transfer(custody, destination, order.amount * t.slots[index].weight / Pow10(decimals))])
      && (r.Err? ==> r.error == InvalidArgument || r.error == Panic)
  {
    if order.status == Pending && order.orderType == Deconstruction && index < |f.bits| && decimals <= MAX_PRECISION {
      DecohereAmount(order.amount, t.slots[index].weight, decimals);
    }
  }

  /** Unlike cohere, a repeated decohere of the same constituent is refused. */
  lemma DecohereRepeatRefused(order: Order, t: Table, f: Flags, index: U16, transferMint: Pubkey,
                              decimals: U8, custody: Pubkey, destination: Pubkey)
    requires ValidTable(t) && ValidFlags(f)
    requires Decohere(order, t, f, index, transferMint, decimals, custody, destination).Ok?
    ensures var s := Decohere(order, t, f, index, transferMint, decimals, custody, destination).value;
      forall mint', decimals', custody', destination' ::
        Decohere(s.order, t, s.flags, index, mint', decimals', custody', destination') == Err(InvalidArgument)
  {
  }

  /** decohere bounds the index by the table's capacity, not by its constituent count: a slot
      past the last constituent is paid out when the mint passed equals the slot's (for an
      unused, zeroed slot: mint 0 and weight 0, so nothing moves), and its flag is set. */
  lemma DecohereIgnoresLength(order: Order, t: Table, f: Flags, index: U16, decimals: U8,
                              custody: Pubkey, destination: Pubkey)
    requires ValidTable(t) && ValidFlags(f)
    requires order.status == Pending && order.orderType == Deconstruction
    requires t.length <= index < MAX_WEIGHTED_TOKENS && !f.bits[index]
    requires t.slots[index] == WeightedToken(0, 0) && decimals <= MAX_PRECISION
    ensures Decohere(order, t, f, index, 0, decimals, custody, destination) ==
      Ok(Step(order, f.(bits := f.bits[index := true]), [Transfer(custody, destination, 0)]))
  {
    assert RequiredAmount(order.amount, 0, decimals) == Some(Decimal(0, decimals));
    ToU64Exact(Decimal(0, decimals), 0);
  }

  // ---------------------------------------------------------------------------------------
  // finalize_order

  /** The share at position `k` of the mint sequence, and the account it is minted to. */
  function ShareAt(s: Shares, k: nat): Decimal
    requires k < 3
  {
    if k == 0 then s.orderer else if k == 1 then s.owner else s.manager
  }

  function RecipientAt(etf: EtfAccounts, k: nat): Pubkey
    requires k < 3
  {
    if k == 0 then etf.orderer else if k == 1 then etf.owner else etf.manager
  }

  /** The minting tail of a construction's finalize_order, in the program's order: the
      orderer's share is converted and minted, then the owner's, then the manager's, so a
      share that fails to convert comes after the mints of the shares before it. The result
      is the mints issued and the conversion error that stops the sequence, if any. */
  function ShareMints(s: Shares, etf: EtfAccounts): (r: (seq<Effect>, Option<ProgramError>))
    ensures |r.0| <= 3
    ensures forall k :: 0 <= k < |r.0| ==>
      ToU64(ShareAt(s, k)).Some? && r.0[k] == MintTo(etf.mint, RecipientAt(etf, k), ToU64(ShareAt(s, k)).value)
    ensures r.1.None? <==> |r.0| == 3
    ensures r.1.Some? ==> r.1 == Some(InvalidArgument) && ToU64(ShareAt(s, |r.0|)).None?
  {
    match ToU64(s.orderer)
    case None => ([], Some(InvalidArgument))
    case Some(o) =>
      var first := [MintTo(etf.mint, etf.orderer, o)];
      match ToU64(s.owner)
      case None => (first, Some(InvalidArgument))
      case Some(w) =>
        var second := first + [MintTo(etf.mint, etf.owner, w)];
        match ToU64(s.manager)
        case None => (second, Some(InvalidArgument))
        case Some(m) => (second + [MintTo(etf.mint, etf.manager, m)], None)
  }

  /** The mint sequence runs to its end exactly when all three shares convert, and then it
      mints the converted amounts to the orderer, the owner and the manager. */
  lemma ShareMintsComplete(s: Shares, etf: EtfAccounts)
    ensures ShareMints(s, etf).1.None? <==> MintAmounts(s).Ok?
    ensures MintAmounts(s).Ok? ==>
      var m := MintAmounts(s).value;
      ShareMints(s, etf).0 == [MintTo(etf.mint, etf.orderer, m.orderer),
                               MintTo(etf.mint, etf.owner, m.owner),
                               MintTo(etf.mint, etf.manager, m.manager)]
  {
    var r := ShareMints(s, etf);
    if r.1.None? {
      assert ToU64(ShareAt(s, 0)).Some? && ToU64(ShareAt(s, 1)).Some? && ToU64(ShareAt(s, 2)).Some?;
    } else {
      assert ToU64(ShareAt(s, |r.0|)).None?;
    }
  }

  /** Finishing a pending order: every one of its flags must be set; they are all cleared for
      the next order; a construction splits the amount into the orderer's, owner's and
      manager's shares and mints them one after the other; the order is marked succeeded. */
  function FinalizeOrder(order: Order, f: Flags, bps: U16, cut: U16, etf: EtfAccounts): Result<Step>
    requires ValidFlags(f)
  {
    if order.status != Pending then Err(InvalidArgument)
    else if !AllTransferred(f) then Err(Custom(StillPending))
    else
      var done := order.(status := Succeeded);
      var f' := f.(bits := ClearPrefix(f.bits, f.length));
      if order.orderType == Construction then
        match SplitConstructionFee(order.amount, bps, cut)
        case Err(e) => Err(e)
        case Ok(s) =>
          var (mints, abort) := ShareMints(s, etf);
          Ok(Step(done, f', mints, abort))
      else Ok(Step(done, f', []))
  }

  /** finalize_order completes exactly when the order is pending, all of its constituents were
      transferred and, for a construction, the fee split converts; an order that is not pending
      is refused with InvalidArgument, and nothing else gives that error before the checks
      pass (the split itself never fails). On completion it marks the order
      succeeded (type and amount kept), clears the order's flags and leaves the others, and
      issues the three mints of the split for a construction and nothing for a
      deconstruction. */
  lemma FinalizeContract(order: Order, f: Flags, bps: U16, cut: U16, etf: EtfAccounts)
    requires ValidFlags(f)
    ensures var r := FinalizeOrder(order, f, bps, cut, etf);
      && (Completes(r) <==>
            order.status == Pending && AllTransferred(f)
            && (order.orderType == Construction ==> ConstructionMints(order.amount, bps, cut).Ok?))
      && (r == Err(InvalidArgument) <==> order.status != Pending)
      && (r == Err(Custom(StillPending)) <==> order.status == Pending && !AllTransferred(f))
      && (Completes(r) ==>
            && r.value.order == Order(order.orderType, Succeeded, order.amount)
            && ValidFlags(r.value.flags)
            && r.value.flags.length == f.length
            && (forall k :: 0 <= k < f.length ==> !r.value.flags.bits[k])
            && r.value.flags.bits[f.length..] == f.bits[f.length..]
            && (order.orderType == Deconstruction ==> r.value.effects == [])
            && (order.orderType == Construction ==>
                  var m := ConstructionMints(order.amount, bps, cut).value;
                  r.value.effects == [MintTo(etf.mint, etf.orderer, m.orderer),
                                      MintTo(etf.mint, etf.owner, m.owner),
                                      MintTo(etf.mint, etf.manager, m.manager)]))
  {
    var r := FinalizeOrder(order, f, bps, cut, etf);
    if order.orderType == Construction && SplitConstructionFee(order.amount, bps, cut).Ok? {
      ShareMintsComplete(SplitConstructionFee(order.amount, bps, cut).value, etf);
    }
    if r.Ok? {
      assert r.value.flags.bits[f.length..] == f.bits[f.length..];
    }
  }

  /** A finalize that passes its checks but does not complete is a construction whose split
      does not convert: it mints, to the orderer and then the owner, the shares before the
      first one that fails to convert, and then aborts with InvalidArgument. */
  lemma FinalizeAborts(order: Order, f: Flags, bps: U16, cut: U16, etf: EtfAccounts)
    requires ValidFlags(f)
    ensures var r := FinalizeOrder(order, f, bps, cut, etf);
      r.Ok? && r.value.abort.Some? ==>
        && order.orderType == Construction
        && ConstructionMints(order.amount, bps, cut) == Err(InvalidArgument)
        && r.value.abort == Some(InvalidArgument)
        && |r.value.effects| < 3
        && forall k :: 0 <= k < |r.value.effects| ==>
             r.value.effects[k].MintTo? && r.value.effects[k].mint == etf.mint
             && r.value.effects[k].destination == RecipientAt(etf, k)
  {
    if order.orderType == Construction && SplitConstructionFee(order.amount, bps, cut).Ok? {
      ShareMintsComplete(SplitConstructionFee(order.amount, bps, cut).value, etf);
    }
  }

  /** With a manager cut above 100% in the ordinary case, the owner's share is negative but the
      orderer's is not: finalize_order mints the orderer's share first and only then fails with
      InvalidArgument, so a failing orderer mint decides the error. */
  lemma ExcessiveCutAfterOrdererMint(order: Order, f: Flags, bps: U16, cut: U16, etf: EtfAccounts)
    requires ValidFlags(f) && order.status == Pending && AllTransferred(f) && order.orderType == Construction
    requires bps * order.amount >= 20000 && cut * (bps * order.amount) >= 100000000
    requires bps <= 10000 && cut > 10000
    ensures var r := FinalizeOrder(order, f, bps, cut, etf);
      && r.Ok?
      && |r.value.effects| == 1
      && r.value.effects[0].MintTo? && r.value.effects[0].mint == etf.mint && r.value.effects[0].destination == etf.orderer
      && r.value.effects[0].amount == (order.amount * 10000 - bps * order.amount) / 10000
      && r.value.abort == Some(InvalidArgument)
  {
    OrdererShareConverts(order.amount, bps, cut);
    ExcessiveCutFails(order.amount, bps, cut);
  }

  /** What a finished construction creates: between amount − 2 and amount ETF tokens in total
      (the three shares lose at most one unit each to truncation), and it destroys none. */
  lemma FinalizeMintsAmount(order: Order, f: Flags, bps: U16, cut: U16, etf: EtfAccounts)
    requires ValidFlags(f)
    requires Completes(FinalizeOrder(order, f, bps, cut, etf))
    ensures var es := FinalizeOrder(order, f, bps, cut, etf).value.effects;
      && Burned(es, etf.mint) == 0
      && (order.orderType == Construction ==> order.amount - 2 <= Minted(es, etf.mint) <= order.amount)
      && (order.orderType == Deconstruction ==> Minted(es, etf.mint) == 0)
  {
    FinalizeContract(order, f, bps, cut, etf);
    if order.orderType == Construction {
      MintsWithinAmount(order.amount, bps, cut);
      var m := ConstructionMints(order.amount, bps, cut).value;
      ThreeMints(etf, m.orderer, m.owner, m.manager);
    }
  }

  lemma ThreeMints(etf: EtfAccounts, x: U64, y: U64, z: U64)
    ensures var es := [MintTo(etf.mint, etf.orderer, x), MintTo(etf.mint, etf.owner, y), MintTo(etf.mint, etf.manager, z)];
      Minted(es, etf.mint) == x + y + z && Burned(es, etf.mint) == 0
  {
    var es := [MintTo(etf.mint, etf.orderer, x), MintTo(etf.mint, etf.owner, y), MintTo(etf.mint, etf.manager, z)];
    assert es[1..] == [MintTo(etf.mint, etf.owner, y), MintTo(etf.mint, etf.manager, z)];
    assert es[1..][1..] == [MintTo(etf.mint, etf.manager, z)];
    assert es[1..][1..][1..] == [];
    assert Minted(es[1..][1..], etf.mint) == z && Burned(es[1..][1..], etf.mint) == 0;
    assert Minted(es[1..], etf.mint) == y + z && Burned(es[1..], etf.mint) == 0;
  }

  /** After a successful finalize the record is ready for the next order: with the ETF
      finished and a positive amount, start_order accepts it, and when the constituent count
      is unchanged the new order starts with none of its constituents marked. */
  lemma FinalizeThenStart(order: Order, f: Flags, bps: U16, cut: U16, etf: EtfAccounts,
                          t: Table, orderType: OrderType, amount: U64)
    requires ValidFlags(f) && ValidTable(t)
    requires FinalizeOrder(order, f, bps, cut, etf).Ok?
    requires amount > 0
    ensures var s := FinalizeOrder(order, f, bps, cut, etf).value;
      var r := StartOrder(s.order, Finished, t, s.flags, orderType, amount, etf);
      && r.Ok?
      && (t.length == f.length ==> forall k :: 0 <= k < r.value.flags.length ==> !r.value.flags.bits[k])
  {
  }

  /** No instruction ever cancels an order: whatever succeeds leaves it pending or succeeded. */
  lemma NeverCancelled(order: Order, etfStatus: PrismEtfStatus, t: Table, f: Flags, orderType: OrderType,
                       amount: U64, etf: EtfAccounts, index: U16, mint: Pubkey, delegated: U64,
                       decimals: U8, a: Pubkey, b: Pubkey, bps: U16, cut: U16)
    requires ValidTable(t) && ValidFlags(f) && order.status != Cancelled
    ensures var r := StartOrder(order, etfStatus, t, f, orderType, amount, etf);
      r.Ok? ==> r.value.order.status == Pending
    ensures var r := Cohere(order, t, f, index, mint, delegated, decimals, a, b);
      r.Ok? ==> r.value.order.status == Pending
    ensures var r := Decohere(order, t, f, index, mint, decimals, a, b);
      r.Ok? ==> r.value.order.status == Pending
    ensures var r := FinalizeOrder(order, f, bps, cut, etf);
      r.Ok? ==> r.value.order.status == Succeeded
  {
  }

  /** Every instruction keeps the flag table well formed: 100 flags, capacity 100, and an
      in-use count no larger than the capacity. */
  lemma FlagsStayValid(order: Order, etfStatus: PrismEtfStatus, t: Table, f: Flags, orderType: OrderType,
                       amount: U64, etf: EtfAccounts, index: U16, mint: Pubkey, delegated: U64,
                       decimals: U8, a: Pubkey, b: Pubkey, bps: U16, cut: U16)
    requires ValidTable(t) && ValidFlags(f)
    ensures var r := StartOrder(order, etfStatus, t, f, orderType, amount, etf);
      r.Ok? ==> ValidFlags(r.value.flags)
    ensures var r := Cohere(order, t, f, index, mint, delegated, decimals, a, b);
      r.Ok? ==> ValidFlags(r.value.flags)
    ensures var r := Decohere(order, t, f, index, mint, decimals, a, b);
      r.Ok? ==> ValidFlags(r.value.flags)
    ensures var r := FinalizeOrder(order, f, bps, cut, etf);
      r.Ok? ==> ValidFlags(r.value.flags)
  {
  }
}
