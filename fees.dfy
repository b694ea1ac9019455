/** The program's amount arithmetic: what one `cohere`/`decohere` step owes for a constituent,
    and how `finalize_order` splits a construction into orderer, owner and manager shares. */
module Fees {
  import opened Types
  import opened FixedPoint

  /** Fee rates are basis points: a scale of four decimal digits. */
  const BASIS_POINT_DECIMALS: nat := 4

  /** The constituent amount owed for `amount` ETF units of a constituent of the given weight:
      amount·weight / 10^decimals, exact, where `decimals` are the ETF mint's decimals.
      Nothing when the scale is beyond the decimal type's limit. */
  function RequiredAmount(amount: U64, weight: U64, decimals: U8): (r: Option<Decimal>)
    ensures r.Some? <==> decimals <= MAX_PRECISION
    ensures r.Some? ==> r.value.scale == decimals && Scaled(r.value, decimals) == amount * weight
  {
    SetScale(Mul(FromUnsigned(amount), FromUnsigned(weight)), decimals)
  }

  /** Whether amount·weight leaves the 96-bit mantissa, which aborts the multiplication. */
  predicate ProductOverflows(amount: U64, weight: U64) {
    !Representable(Mul(FromUnsigned(amount), FromUnsigned(weight)))
  }

  /** What `cohere` hands to the token program: the required amount truncated to an integer,
      and one unit instead when it truncates to zero. */
  function CohereTransferAmount(required: Decimal): Result<U64> {
    match ToU64(required)
    case None => Err(Custom(U64Failure))
    case Some(q) => Ok(if q == 0 then 1 else q)
  }

  lemma MulCancel(q: int, k: int, p: nat)
    requires p >= 1 && q * p <= k * p
    ensures q <= k
  {
    if q > k {
      MulMonotone(k + 1, q, p);
    }
  }

  /** The approval check of `cohere` compares exact values: it fails exactly when the delegated
      allowance is below amount·weight / 10^decimals. Once it passes, the transfer amount is
      the truncated requirement raised to at least one unit, and never fails to convert. */
  lemma CohereAmount(amount: U64, weight: U64, decimals: U8, delegated: U64)
    requires decimals <= MAX_PRECISION
    ensures var required := RequiredAmount(amount, weight, decimals).value;
      && (Less(FromUnsigned(delegated), required) <==> delegated * Pow10(decimals) < amount * weight)
      && (!Less(FromUnsigned(delegated), required) ==>
            CohereTransferAmount(required) == Ok(Max(1, amount * weight / Pow10(decimals))))
  {
    var required := RequiredAmount(amount, weight, decimals).value;
    var p := Pow10(decimals);
    assert Scaled(FromUnsigned(delegated), decimals) == delegated * p;
    assert Scaled(required, decimals) == amount * weight;
    if !Less(FromUnsigned(delegated), required) {
      var q := amount * weight / p;
      DivBounds(amount * weight, p);
      MulCancel(q, delegated, p);
      assert ToU64(required) == Some(q);
    }
  }

  /** No free cohere: whatever `cohere` transfers is at least one unit. */
  lemma CohereNeverTransfersZero(required: Decimal)
    requires CohereTransferAmount(required).Ok?
    ensures CohereTransferAmount(required).value >= 1
  {
  }

  /** `decohere` pays out the requirement truncated, with no minimum: zero when amount·weight
      is below 10^decimals. It fails only when the truncated value exceeds 64 bits. */
  lemma DecohereAmount(amount: U64, weight: U64, decimals: U8)
    requires decimals <= MAX_PRECISION
    ensures var required := RequiredAmount(amount, weight, decimals).value;
      && (ToU64(required).Some? <==> amount * weight / Pow10(decimals) <= U64_MAX)
      && (ToU64(required).Some? ==> ToU64(required).value == amount * weight / Pow10(decimals))
  {
    var required := RequiredAmount(amount, weight, decimals).value;
    DivBounds(amount * weight, Pow10(decimals));
  }

  // ---------------------------------------------------------------------------------------
  // The construction fee split of finalize_order

  /** The three decimal shares of a construction. */
  datatype Shares = Shares(orderer: Decimal, owner: Decimal, manager: Decimal)

  /** The three amounts minted at the end of a construction. */
  datatype Mints = Mints(orderer: U64, owner: U64, manager: U64)

  /** The fee split as the program computes it: fee = bps·amount at scale 4, raised to 2 when it
      is below 2; manager = cut·fee at scale 8; if the manager share is below 1 the fee is set
      to 1; the orderer gets amount − fee and the owner fee − manager. */
  function SplitConstructionFee(amount: U64, bps: U16, cut: U16): Result<Shares> {
    var mintAmount := FromUnsigned(amount);
    match SetScale(Mul(FromUnsigned(bps), mintAmount), BASIS_POINT_DECIMALS)
    case None => Err(InvalidArgument)
    case Some(scaledFee) =>
      var fee := if Less(scaledFee, FromUnsigned(2)) then FromUnsigned(2) else scaledFee;
      match SetScale(Mul(FromUnsigned(cut), fee), 2 * BASIS_POINT_DECIMALS)
      case None => Err(InvalidArgument)
      case Some(manager) =>
        var fee' := if Less(manager, FromUnsigned(1)) then FromUnsigned(1) else fee;
        Ok(Shares(Sub(mintAmount, fee'), Sub(fee', manager), manager))
  }

  /** Converting the shares to token amounts: each is truncated, and a negative or oversized
      share fails the instruction. */
  function MintAmounts(s: Shares): Result<Mints> {
    match (ToU64(s.orderer), ToU64(s.owner), ToU64(s.manager))
    case (Some(o), Some(w), Some(m)) => Ok(Mints(o, w, m))
    case _ => Err(InvalidArgument)
  }

  function ConstructionMints(amount: U64, bps: U16, cut: U16): Result<Mints> {
    match SplitConstructionFee(amount, bps, cut)
    case Err(e) => Err(e)
    case Ok(s) => MintAmounts(s)
  }

  lemma WholeUnits(n: U64)
    ensures ToU64(Decimal(n, 0)) == Some(n)
  {
    assert Pow10(0) == 1;
    ToU64Exact(Decimal(n, 0), n);
  }

  lemma BelowOneUnit(m: nat)
    requires m < 100000000
    ensures ToU64(Decimal(m, 8)) == Some(0)
  {
    assert Pow10(8) == 100000000;
    ToU64Exact(Decimal(m, 8), 0);
  }

  lemma OneUnitLess(m: nat)
    requires m < 100000000
    ensures ToU64(Decimal(100000000 - m, 8)) == Some(if m == 0 then 1 else 0)
  {
    assert Pow10(8) == 100000000;
    ToU64Exact(Decimal(100000000 - m, 8), if m == 0 then 1 else 0);
  }

  /** The mints are the three shares converted, once the split is known. */
  lemma MintsOfShares(amount: U64, bps: U16, cut: U16, s: Shares, o: U64, w: U64, m: U64)
    requires SplitConstructionFee(amount, bps, cut) == Ok(s)
    requires ToU64(s.orderer) == Some(o) && ToU64(s.owner) == Some(w) && ToU64(s.manager) == Some(m)
    ensures ConstructionMints(amount, bps, cut) == Ok(Mints(o, w, m))
  {
  }

  /** The mantissa of the manager share at scale 8, whichever way the fee went. */
  function ManagerMantissa(amount: U64, bps: U16, cut: U16): nat {
    cut * (if bps * amount < 20000 then 2 else bps * amount)
  }

  /** The shares the split produces, each written at scale 8. */
  lemma SplitShape(amount: U64, bps: U16, cut: U16)
    ensures SplitConstructionFee(amount, bps, cut).Ok?
    ensures var s := SplitConstructionFee(amount, bps, cut).value;
      var m := ManagerMantissa(amount, bps, cut);
      var fee8 := if m < 100000000 then 100000000 else bps * amount * 10000;
      && s.orderer.scale <= 8 && s.owner.scale == 8 && s.manager.scale == 8
      && Scaled(s.orderer, 8) == amount * 100000000 - fee8
      && Scaled(s.owner, 8) == fee8 - m
      && s.manager == Decimal(m, 8)
  {
    assert Pow10(4) == 10000;
    assert Pow10(8) == 100000000;
    var mintAmount := FromUnsigned(amount);
    var scaledFee := Decimal(bps * amount, 4);
    assert Less(scaledFee, FromUnsigned(2)) <==> bps * amount < 20000;
    var fee := if bps * amount < 20000 then FromUnsigned(2) else scaledFee;
    var manager := Decimal(cut * fee.mantissa, 8);
    assert manager.mantissa == ManagerMantissa(amount, bps, cut);
    assert Less(manager, FromUnsigned(1)) <==> manager.mantissa < 100000000;
    var fee' := if manager.mantissa < 100000000 then FromUnsigned(1) else fee;
    assert Scaled(fee', 8) == if manager.mantissa < 100000000 then 100000000 else bps * amount * 10000;
    SubIsExact(mintAmount, fee', 8);
    SubIsExact(fee', manager, 8);
  }

  /** Conservation: the three decimal shares add up to exactly the ordered amount. */
  lemma SplitConserves(amount: U64, bps: U16, cut: U16)
    ensures SplitConstructionFee(amount, bps, cut).Ok?
    ensures var s := SplitConstructionFee(amount, bps, cut).value;
      && s.orderer.scale <= 8 && s.owner.scale <= 8 && s.manager.scale <= 8
      && Scaled(s.orderer, 8) + Scaled(s.owner, 8) + Scaled(s.manager, 8) == amount * Pow10(8)
  {
    SplitShape(amount, bps, cut);
    assert Pow10(8) == 100000000;
  }

  /** The truncated amounts minted never exceed the ordered amount, and lose at most two units
      to truncation. */
  lemma MintsWithinAmount(amount: U64, bps: U16, cut: U16)
    requires ConstructionMints(amount, bps, cut).Ok?
    ensures var m := ConstructionMints(amount, bps, cut).value;
      amount - 2 <= m.orderer + m.owner + m.manager <= amount
  {
    SplitConserves(amount, bps, cut);
    var s := SplitConstructionFee(amount, bps, cut).value;
    var m := ConstructionMints(amount, bps, cut).value;
    TruncationAtScale8(s.orderer, m.orderer);
    TruncationAtScale8(s.owner, m.owner);
    TruncationAtScale8(s.manager, m.manager);
    assert Pow10(8) == 100000000;
    SumOfTruncations(m.orderer, m.owner, m.manager, Scaled(s.orderer, 8), Scaled(s.owner, 8), Scaled(s.manager, 8), amount);
  }

  /** Three values that add up to `total` units lose less than three units when each is
      truncated. */
  lemma SumOfTruncations(a: int, b: int, c: int, x: int, y: int, z: int, total: int)
    requires a * 100000000 <= x < (a + 1) * 100000000
    requires b * 100000000 <= y < (b + 1) * 100000000
    requires c * 100000000 <= z < (c + 1) * 100000000
    requires x + y + z == total * 100000000
    ensures total - 2 <= a + b + c <= total
  {
  }

  /** A share truncated to `q` lies in [q, q + 1) at scale 8. */
  lemma TruncationAtScale8(d: Decimal, q: U64)
    requires d.scale <= 8 && ToU64(d) == Some(q)
    ensures q * 100000000 <= Scaled(d, 8) < (q + 1) * 100000000
  {
    var p := Pow10(d.scale);
    var k := Pow10(8 - d.scale);
    Pow10Add(d.scale, 8 - d.scale);
    assert d.scale + (8 - d.scale) == 8;
    assert Pow10(8) == 100000000;
    RescaleBounds(q, d.mantissa, p, k, 100000000);
  }

  /** Bounds q·p ≤ m < (q+1)·p carry over to any multiple: q·P ≤ m·k < (q+1)·P for P = p·k. */
  lemma RescaleBounds(q: int, m: int, p: nat, k: nat, P: nat)
    requires k >= 1 && p * k == P && q * p <= m < (q + 1) * p
    ensures q * P <= m * k < (q + 1) * P
  {
    assert (m + 1) * k == m * k + k;
    MulMonotone(q * p, m, k);
    MulMonotone(m + 1, (q + 1) * p, k);
    assert q * p * k == q * P;
    assert (q + 1) * p * k == (q + 1) * P;
  }

  /** The ordinary case: fee at least 2 and manager share at least 1 unit. Then the orderer gets
      amount − ⌈bps·amount / 10^4⌉, the manager ⌊cut·bps·amount / 10^8⌋ and the owner the rest
      of the fee, truncated. */
  lemma SplitOrdinary(amount: U64, bps: U16, cut: U16)
    requires bps * amount >= 20000 && cut * (bps * amount) >= 100000000
    requires bps <= 10000 && cut <= 10000
    ensures ConstructionMints(amount, bps, cut) ==
      Ok(Mints((amount * 10000 - bps * amount) / 10000,
               (bps * amount * 10000 - cut * (bps * amount)) / 100000000,
               cut * (bps * amount) / 100000000))
  {
    SplitShape(amount, bps, cut);
    var s := SplitConstructionFee(amount, bps, cut).value;
    assert Pow10(4) == 10000;
    assert Pow10(8) == 100000000;
    MulMonotone(bps, 10000, amount);
    MulMonotone(cut, 10000, bps * amount);
    assert s.orderer == Decimal(amount * 10000 - bps * amount, 4);
    assert ToU64(s.orderer).Some? by {
      MulMonotone(amount * 10000 - bps * amount, (U64_MAX + 1) * 10000 - 1, 1);
    }
    assert ToU64(s.owner).Some? by {
      assert s.owner.mantissa <= bps * amount * 10000;
      MulMonotone(bps, 65535, amount);
    }
    assert ToU64(s.manager).Some? by {
      MulMonotone(cut * (bps * amount), 10000 * (bps * amount), 1);
      MulMonotone(bps, 65535, amount);
    }
  }

  /** When the manager share is below one unit (always so when the fee was raised to 2), the
      fee becomes 1: the orderer gets amount − 1, the manager nothing, and the owner nothing as
      well unless the cut is zero. */
  lemma SplitManagerBelowOne(amount: U64, bps: U16, cut: U16)
    requires amount >= 1
    requires bps * amount < 20000 || cut * (bps * amount) < 100000000
    ensures ConstructionMints(amount, bps, cut) == Ok(Mints(amount - 1, if cut == 0 then 1 else 0, 0))
  {
    BelowOneShares(amount, bps, cut);
    var m := ManagerMantissa(amount, bps, cut);
    WholeUnits(amount - 1);
    BelowOneUnit(m);
    OneUnitLess(m);
    MintsOfShares(amount, bps, cut, Shares(Decimal(amount - 1, 0), Decimal(100000000 - m, 8), Decimal(m, 8)),
                  amount - 1, if cut == 0 then 1 else 0, 0);
  }

  /** The shares when the manager share is below one unit: the fee is 1, so the orderer has
      amount − 1 and the owner 1 − manager. */
  lemma BelowOneShares(amount: U64, bps: U16, cut: U16)
    requires amount >= 1
    requires bps * amount < 20000 || cut * (bps * amount) < 100000000
    ensures SplitConstructionFee(amount, bps, cut).Ok?
    ensures var s := SplitConstructionFee(amount, bps, cut).value;
      var m := ManagerMantissa(amount, bps, cut);
      && m < 100000000 && (m == 0 <==> cut == 0)
      && s == Shares(Decimal(amount - 1, 0), Decimal(100000000 - m, 8), Decimal(m, 8))
  {
    if bps * amount < 20000 {
      BelowOneFloored(amount, bps, cut);
    } else {
      BelowOneUnfloored(amount, bps, cut);
      if cut != 0 {
        MulMonotone(1, cut, bps * amount);
      }
    }
  }

  /** The fee was raised to 2, so the manager share is 2·cut at scale 8, below one unit. */
  lemma BelowOneFloored(amount: U64, bps: U16, cut: U16)
    requires amount >= 1 && bps * amount < 20000
    ensures SplitConstructionFee(amount, bps, cut) ==
      Ok(Shares(Decimal(amount - 1, 0), Decimal(100000000 - 2 * cut, 8), Decimal(2 * cut, 8)))
  {
    var x := bps * amount;
    assert SetScale(Mul(FromUnsigned(bps), FromUnsigned(amount)), BASIS_POINT_DECIMALS) == Some(Decimal(x, 4));
    FeeAgainstFloor(x);
    assert Mul(FromUnsigned(cut), FromUnsigned(2)) == Decimal(2 * cut, 0);
    ManagerAgainstOne(2 * cut);
    OneUnitOff(amount);
    ShareOfOne(2 * cut);
  }

  /** The fee was not raised, but cut·fee is still below one unit at scale 8. */
  lemma BelowOneUnfloored(amount: U64, bps: U16, cut: U16)
    requires amount >= 1 && bps * amount >= 20000 && cut * (bps * amount) < 100000000
    ensures SplitConstructionFee(amount, bps, cut) ==
      Ok(Shares(Decimal(amount - 1, 0), Decimal(100000000 - cut * (bps * amount), 8), Decimal(cut * (bps * amount), 8)))
  {
    var x := bps * amount;
    assert SetScale(Mul(FromUnsigned(bps), FromUnsigned(amount)), BASIS_POINT_DECIMALS) == Some(Decimal(x, 4));
    FeeAgainstFloor(x);
    assert Mul(FromUnsigned(cut), Decimal(x, 4)) == Decimal(cut * x, 4);
    ManagerAgainstOne(cut * x);
    OneUnitOff(amount);
    ShareOfOne(cut * x);
  }

  /** The fee at scale 4 is below the floor of 2 exactly when its mantissa is below 20000. */
  lemma FeeAgainstFloor(x: nat)
    ensures Less(Decimal(x, 4), FromUnsigned(2)) <==> x < 20000
  {
    assert Pow10(4) == 10000;
  }

  /** The manager share at scale 8 is below one unit exactly when its mantissa is below 10^8. */
  lemma ManagerAgainstOne(m: nat)
    ensures Less(Decimal(m, 8), FromUnsigned(1)) <==> m < 100000000
  {
    assert Pow10(8) == 100000000;
  }

  /** The orderer's share once the fee is 1. */
  lemma OneUnitOff(n: nat)
    ensures Sub(FromUnsigned(n), FromUnsigned(1)) == Decimal(n - 1, 0)
  {
  }

  /** The owner's share once the fee is 1: one unit less the manager share, at scale 8. */
  lemma ShareOfOne(m: nat)
    ensures Sub(FromUnsigned(1), Decimal(m, 8)) == Decimal(100000000 - m, 8)
  {
    assert Pow10(8) == 100000000;
  }

  /** In the ordinary case with a construction rate of at most 100%, the orderer's share
      converts to amount − ⌈bps·amount / 10^4⌉, whatever the manager cut. */
  lemma OrdererShareConverts(amount: U64, bps: U16, cut: U16)
    requires bps * amount >= 20000 && cut * (bps * amount) >= 100000000
    requires bps <= 10000
    ensures SplitConstructionFee(amount, bps, cut).Ok?
    ensures ToU64(SplitConstructionFee(amount, bps, cut).value.orderer) == Some((amount * 10000 - bps * amount) / 10000)
  {
    SplitShape(amount, bps, cut);
    var s := SplitConstructionFee(amount, bps, cut).value;
    assert Pow10(4) == 10000;
    assert Pow10(8) == 100000000;
    MulMonotone(bps, 10000, amount);
    assert s.orderer == Decimal(amount * 10000 - bps * amount, 4);
    AtMostAmount(amount * 10000 - bps * amount, amount);
  }

  /** A value of at most `a` units, written at scale 4, truncates to its whole part. */
  lemma AtMostAmount(x: int, a: U64)
    requires 0 <= x <= a * 10000
    ensures ToU64(Decimal(x, 4)) == Some(x / 10000)
  {
    assert Pow10(4) == 10000;
    DivBounds(x, 10000);
    ToU64Exact(Decimal(x, 4), x / 10000);
  }

  /** Fee rates are not range-checked when set. In the ordinary case (fee not floored, manager
      share at least one unit) a manager cut above 100% makes the owner share negative, so it
      does not convert and the split fails. */
  lemma ExcessiveCutFails(amount: U64, bps: U16, cut: U16)
    requires bps * amount >= 20000 && cut * (bps * amount) >= 100000000
    requires cut > 10000
    ensures SplitConstructionFee(amount, bps, cut).Ok?
    ensures ToU64(SplitConstructionFee(amount, bps, cut).value.owner) == None
    ensures ConstructionMints(amount, bps, cut) == Err(InvalidArgument)
  {
    SplitShape(amount, bps, cut);
    var s := SplitConstructionFee(amount, bps, cut).value;
    MulMonotone(10001, cut, bps * amount);
    NegativeHasNoU64(s.owner, 8);
  }

  /** Likewise, in the ordinary case, a construction rate above 100% makes the orderer share
      negative, and the split fails. */
  lemma ExcessiveRateFails(amount: U64, bps: U16, cut: U16)
    requires bps * amount >= 20000 && cut * (bps * amount) >= 100000000
    requires bps > 10000
    ensures ConstructionMints(amount, bps, cut) == Err(InvalidArgument)
  {
    SplitShape(amount, bps, cut);
    var s := SplitConstructionFee(amount, bps, cut).value;
    MulMonotone(10001, bps, amount);
    NegativeHasNoU64(s.orderer, 8);
  }

  /** With rates at most 100% and a nonzero order, the split always succeeds. */
  lemma SplitSucceedsInRange(amount: U64, bps: U16, cut: U16)
    requires amount >= 1 && bps <= 10000 && cut <= 10000
    ensures ConstructionMints(amount, bps, cut).Ok?
  {
    if bps * amount < 20000 || cut * (bps * amount) < 100000000 {
      SplitManagerBelowOne(amount, bps, cut);
    } else {
      SplitOrdinary(amount, bps, cut);
    }
  }

  /** The split of 10^9 units at the default 90 basis points and 20% manager cut. */
  lemma SplitDefaultExample(amount: U64, bps: U16, cut: U16)
    requires amount == 1000000000 && bps == 90 && cut == 2000
    ensures ConstructionMints(amount, bps, cut) == Ok(Mints(991000000, 7200000, 1800000))
  {
    DefaultExampleArithmetic(amount, bps, cut);
    SplitOrdinary(amount, bps, cut);
  }

  lemma DefaultExampleArithmetic(amount: U64, bps: U16, cut: U16)
    requires amount == 1000000000 && bps == 90 && cut == 2000
    ensures bps * amount >= 20000 && cut * (bps * amount) >= 100000000
    ensures (amount * 10000 - bps * amount) / 10000 == 991000000
    ensures (bps * amount * 10000 - cut * (bps * amount)) / 100000000 == 7200000
    ensures cut * (bps * amount) / 100000000 == 1800000
  {
  }

  /** Every intermediate product of the split fits the 96-bit mantissa, so the multiplications
      in `finalize_order` never abort for 16-bit rates and 64-bit amounts. */
  lemma SplitNeverOverflows(amount: U64, bps: U16, cut: U16)
    ensures Representable(Mul(FromUnsigned(bps), FromUnsigned(amount)))
    ensures Representable(Mul(FromUnsigned(cut), FromUnsigned(2)))
    ensures Representable(Mul(FromUnsigned(cut), Decimal(bps * amount, 4)))
  {
    MulMonotone(bps, 65535, amount);
    MulMonotone(amount, U64_MAX, 65535);
    MulMonotone(cut, 65535, bps * amount);
    MulMonotone(bps * amount, 65535 * U64_MAX, 65535);
  }
}
