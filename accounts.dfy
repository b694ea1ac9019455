/** The program's accounts as mutable objects: the controller, an ETF record, its constituent
    table, an order record and its transfer flags. Each class has a snapshot function that
    the specifications of the instructions are written over, the instruction that creates the
    account as its constructor, and the handlers that overwrite a single field as methods. */
module Accounts {
  import opened Types
  import opened Enums
  import opened Registry
  import opened Orders

  /** The fee settings a new controller starts with: 0.9% to construct, nothing to deconstruct,
      and a fifth of each fee to the ETF's manager (all in basis points). */
  const DEFAULT_CONSTRUCT_BPS: U16 := 90
  const DEFAULT_DECONSTRUCT_BPS: U16 := 0
  const DEFAULT_MANAGER_BPS: U16 := 2000

  /** The fields of the controller account. */
  datatype ControllerRecord = ControllerRecord(owner: Pubkey, bump: U8, constructionBps: U16, deconstructionBps: U16, managerCut: U16)

  /** The controller: its owner and the fee settings new ETFs copy. */
  class Beamsplitter {
    var owner: Pubkey
    var bump: U8
    var defaultConstructionBps: U16
    var defaultDeconstructionBps: U16
    var defaultManagerCut: U16

    function Record(): ControllerRecord
      reads this
    {
      ControllerRecord(owner, bump, defaultConstructionBps, defaultDeconstructionBps, defaultManagerCut)
    }

    /** initialize: the signer becomes the owner; the fee settings take their defaults. */
    constructor Initialize(signer: Pubkey, bump: U8)
      ensures Record() == ControllerRecord(signer, bump, DEFAULT_CONSTRUCT_BPS, DEFAULT_DECONSTRUCT_BPS, DEFAULT_MANAGER_BPS)
    {
      this.bump := bump;
      owner := signer;
      defaultConstructionBps := DEFAULT_CONSTRUCT_BPS;
      defaultDeconstructionBps := DEFAULT_DECONSTRUCT_BPS;
      defaultManagerCut := DEFAULT_MANAGER_BPS;
    }

    method SetOwner(newOwner: Pubkey)
      modifies this
      ensures Record() == old(Record()).(owner := newOwner)
    {
      owner := newOwner;
    }

    method SetDefaultManagerCut(cut: U16)
      modifies this
      ensures Record() == old(Record()).(managerCut := cut)
    {
      defaultManagerCut := cut;
    }

    method SetDefaultConstructionBps(bps: U16)
      modifies this
      ensures Record() == old(Record()).(constructionBps := bps)
    {
      defaultConstructionBps := bps;
    }

    method SetDefaultDeconstructionBps(bps: U16)
      modifies this
      ensures Record() == old(Record()).(deconstructionBps := bps)
    {
      defaultDeconstructionBps := bps;
    }
  }

  /** The fields of an ETF record. */
  datatype EtfRecord = EtfRecord(
    manager: Pubkey, bump: U8, weightedTokens: Pubkey, status: PrismEtfStatus,
    constructionBps: U16, deconstructionBps: U16, managerCut: U16,
    rebalancingMode: RebalancingMode, autorebalancingSchedule: AutorebalancingSchedule)

  /** An ETF: its manager, the key of its constituent table, whether the table is final, and
      the fee settings its orders use. */
  class PrismEtf {
    var manager: Pubkey
    var bump: U8
    var weightedTokens: Pubkey
    var status: PrismEtfStatus
    var constructionBps: U16
    var deconstructionBps: U16
    var managerCut: U16
    var rebalancingMode: RebalancingMode
    var autorebalancingSchedule: AutorebalancingSchedule

    function Record(): EtfRecord
      reads this
    {
      EtfRecord(manager, bump, weightedTokens, status, constructionBps, deconstructionBps, managerCut,
                rebalancingMode, autorebalancingSchedule)
    }

    /** The writes of init_prism_etf: manager, bump and table key as given, still open for
        constituents, the controller's current fee settings, and the fields the instruction
        leaves zeroed at their defaults. */
    constructor Create(manager: Pubkey, bump: U8, weightedTokens: Pubkey, controller: Beamsplitter)
      ensures Record() == EtfRecord(manager, bump, weightedTokens, Unfinished,
                                    controller.defaultConstructionBps, controller.defaultDeconstructionBps,
                                    controller.defaultManagerCut, DefaultRebalancingMode(),
                                    DefaultAutorebalancingSchedule())
    {
      this.manager := manager;
      this.bump := bump;
      this.weightedTokens := weightedTokens;
      status := Unfinished;
      constructionBps := controller.defaultConstructionBps;
      deconstructionBps := controller.defaultDeconstructionBps;
      managerCut := controller.defaultManagerCut;
      rebalancingMode := DefaultRebalancingMode();
      autorebalancingSchedule := DefaultAutorebalancingSchedule();
    }

    /** finalize_prism_etf: unconditional, so a second call changes nothing. */
    method Finalize()
      modifies this
      ensures Record() == old(Record()).(status := Finished)
    {
      status := Finished;
    }

    method SetManager(newManager: Pubkey)
      modifies this
      ensures Record() == old(Record()).(manager := newManager)
    {
      manager := newManager;
    }

    method SetManagerCut(cut: U16)
      modifies this
      ensures Record() == old(Record()).(managerCut := cut)
    {
      managerCut := cut;
    }

    method SetConstructionBps(bps: U16)
      modifies this
      ensures Record() == old(Record()).(constructionBps := bps)
    {
      constructionBps := bps;
    }

    method SetDeconstructionBps(bps: U16)
      modifies this
      ensures Record() == old(Record()).(deconstructionBps := bps)
    {
      deconstructionBps := bps;
    }
  }

  /** An ETF's constituent table: 100 fixed slots, of which the first `length` are in use. */
  class WeightedTokens {
    var length: nat
    var capacity: nat
    const slots: array<WeightedToken>

    predicate Valid()
      reads this
    {
      slots.Length == MAX_WEIGHTED_TOKENS && capacity == MAX_WEIGHTED_TOKENS && length <= capacity
    }

    function State(): Table
      reads this, slots
    {
      Table(length, capacity, slots[..])
    }

    /** init_weighted_tokens: zeroed slots, nothing in use, capacity 100. */
    constructor Init()
      ensures Valid() && State() == EmptyTable() && fresh(slots)
    {
      length := 0;
      capacity := MAX_WEIGHTED_TOKENS;
      slots := new WeightedToken[MAX_WEIGHTED_TOKENS](_ => WeightedToken(0, 0));
    }

    /** Puts back the slots as they were before a failed instruction, as the runtime does
        when it discards the instruction's writes. */
    method Restore(saved: seq<WeightedToken>)
      requires |saved| == slots.Length
      modifies slots
      ensures slots[..] == saved
    {
      forall j | 0 <= j < slots.Length {
        slots[j] := saved[j];
      }
    }
  }

  /** The fields of an order record. */
  datatype OrderRecord = OrderRecord(order: Order, bump: U8, transferredTokens: Pubkey)

  /** An orderer's order record, reused from one order to the next. */
  class OrderState {
    var orderType: OrderType
    var status: OrderStatus
    var amount: U64
    var bump: U8
    var transferredTokens: Pubkey

    function Current(): Order
      reads this
    {
      Order(orderType, status, amount)
    }

    function Record(): OrderRecord
      reads this
    {
      OrderRecord(Current(), bump, transferredTokens)
    }

    /** init_order_state: bump and flag-table key as given, status succeeded so that an order
        can be started; the other fields keep the zero-filled account's values (amount 0, and
        the first order type variant, deconstruction). */
    constructor InitOrderState(bump: U8, transferredTokens: Pubkey)
      ensures Record() == OrderRecord(NewOrder(), bump, transferredTokens)
    {
      this.bump := bump;
      this.transferredTokens := transferredTokens;
      status := Succeeded;
      orderType := Deconstruction;
      amount := 0;
    }
  }

  /** An order's transfer flags: 100 fixed flags, of which the first `length` belong to the
      order in flight. */
  class TransferredTokens {
    var length: nat
    var capacity: nat
    const bits: array<bool>

    predicate Valid()
      reads this
    {
      bits.Length == MAX_WEIGHTED_TOKENS && capacity == MAX_WEIGHTED_TOKENS && length <= capacity
    }

    function State(): Flags
      reads this, bits
    {
      Flags(length, capacity, bits[..])
    }

    /** init_transferred_tokens: no flag set, nothing in use, capacity 100. */
    constructor Init()
      ensures Valid() && State() == NewFlags() && fresh(bits)
    {
      length := 0;
      capacity := MAX_WEIGHTED_TOKENS;
      bits := new bool[MAX_WEIGHTED_TOKENS](_ => false);
    }

    /** Puts back the flags as they were before a failed instruction. */
    method Restore(saved: seq<bool>)
      requires |saved| == bits.Length
      modifies bits
      ensures bits[..] == saved
    {
      forall j | 0 <= j < bits.Length {
        bits[j] := saved[j];
      }
    }
  }
}
