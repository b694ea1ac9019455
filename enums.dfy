/** The enumerations of the program and the values their `Default` implementations return. */
module Enums {

  /** Whether an ETF's constituent list is still being built. */
  datatype PrismEtfStatus = Unfinished | Finished

  /** The direction of an order: build ETF tokens from constituents, or break them up. */
  datatype OrderType = Deconstruction | Construction

  /** The life-cycle status of an order record. */
  datatype OrderStatus = Pending | Cancelled | Succeeded

  datatype RebalancingMode = Off | Manual

  datatype AutorebalancingSchedule = Never

  function DefaultPrismEtfStatus(): PrismEtfStatus { Unfinished }

  function DefaultOrderType(): OrderType { Construction }

  function DefaultOrderStatus(): OrderStatus { Succeeded }

  function DefaultRebalancingMode(): RebalancingMode { Off }

  function DefaultAutorebalancingSchedule(): AutorebalancingSchedule { Never }

  /** A default ETF is still open for
      constituents, a default order is a construction that is not in flight (so it can be
      started), and rebalancing is switched off and never scheduled. */
  lemma EnumDefaults()
    ensures DefaultPrismEtfStatus() == Unfinished
    ensures DefaultOrderType() == Construction
    ensures DefaultOrderStatus() != Pending && DefaultOrderStatus() == Succeeded
    ensures DefaultRebalancingMode() == Off
    ensures DefaultAutorebalancingSchedule() == Never
  {
  }
}
