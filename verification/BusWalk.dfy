/** The walk over the I2C buses that a board configures. */
module BusWalk {

  datatype FilterType = AllBuses | InternalBus | ExternalBus

  /** One entry of the board's bus table; bus -1 marks the end of the used entries. */
  datatype BusEntry = BusEntry(bus: int, external: bool)

  /** What the board offers: its table, and the buses it has at run time. */
  datatype BoardBuses = BoardBuses(table: seq<BusEntry>, present: set<int>)

  /** Entry `i` passes the filter and is the requested bus (-1 asks for all). */
  predicate Selected(b: BoardBuses, filter: FilterType, requested: int, i: nat)
    requires i < |b.table|
  {
    var e := b.table[i];
    && e.bus in b.present
    && (filter.InternalBus? ==> !e.external)
    && (filter.ExternalBus? ==> e.external)
    && (requested == e.bus || requested == -1)
  }

  /** The number of used entries. */
  function Used(table: seq<BusEntry>): (n: nat)
    ensures n <= |table|
    ensures forall i :: 0 <= i < n ==> table[i].bus != -1
    ensures n < |table| ==> table[n].bus == -1
  {
    if table == [] || table[0].bus == -1 then 0
    else
      var n := Used(table[1..]);
      assert forall i :: 0 < i < n + 1 ==> table[i] == table[1..][i - 1];
      n + 1
  }

  /** The buses that the walk yields from entry `i` on. */
  function Walk(b: BoardBuses, filter: FilterType, requested: int, i: nat): seq<int>
    requires i <= Used(b.table)
    decreases Used(b.table) - i
  {
    if i == Used(b.table) then []
    else (if Selected(b, filter, requested, i) then [b.table[i].bus] else []) + Walk(b, filter, requested, i + 1)
  }

  /** External buses among the entries `..i` that the board has. */
  function Externals(b: BoardBuses, i: nat): nat
    requires i <= |b.table|
  {
    if i == 0 then 0
    else Externals(b, i - 1) + (if b.table[i - 1].external && b.table[i - 1].bus in b.present then 1 else 0)
  }

  lemma WalkNext(b: BoardBuses, filter: FilterType, requested: int, i: nat)
    requires i < Used(b.table)
    ensures Walk(b, filter, requested, i) ==
      (if Selected(b, filter, requested, i) then [b.table[i].bus] else []) + Walk(b, filter, requested, i + 1)
    ensures Externals(b, i + 1) ==
      Externals(b, i) + (if b.table[i].external && b.table[i].bus in b.present then 1 else 0)
  {
  }

  class I2CBusIterator {
    const board: BoardBuses
    const filter: FilterType
    const requested: int
    var index: int
    var externalBusCounter: nat

    ghost predicate Valid()
      reads this
    {
      && -1 <= index <= Used(board.table)
      && (filter.ExternalBus? && index < Used(board.table) ==> externalBusCounter == Externals(board, index + 1))
    }

    /** What is still to come. */
    ghost function Remaining(): seq<int>
      requires Valid()
      reads this
    {
      if index == Used(board.table) then [] else Walk(board, filter, requested, index + 1)
    }

    constructor (b: BoardBuses, f: FilterType, bus: int)
      ensures Valid() && board == b && filter == f && requested == bus && index == -1
      ensures Remaining() == Walk(b, f, bus, 0)
    {
      board, filter, requested := b, f, bus;
      index, externalBusCounter := -1, 0;
    }

    /** Moves on to the next selected bus, counting external buses on the way. */
    method Next() returns (found: bool)
      requires Valid() && index < Used(board.table)
      modifies this
      ensures Valid()
      ensures found <==> old(Remaining()) != []
      ensures found ==> 0 <= index < Used(board.table) && old(Remaining()) == [board.table[index].bus] + Remaining()
      ensures !found ==> index == Used(board.table)
    {
      ghost var before := Remaining();
      index := index + 1;
      while index < |board.table| && board.table[index].bus != -1
        invariant 0 <= index <= Used(board.table)
        invariant before == Walk(board, filter, requested, index)
        invariant filter.ExternalBus? ==> externalBusCounter == Externals(board, index)
        decreases |board.table| - index
      {
        WalkNext(board, filter, requested, index);
        found := Visit();
        if found {
          assert Remaining() == Walk(board, filter, requested, index + 1);
          return;
        }
        index := index + 1;
      }
      return false;
    }

    /** Whether the entry at the current position is selected; external buses are counted. */
    method Visit() returns (selected: bool)
      requires 0 <= index < Used(board.table)
      modifies this`externalBusCounter
      ensures selected <==> Selected(board, filter, requested, index)
      ensures externalBusCounter == old(externalBusCounter) +
        (if filter.ExternalBus? && board.table[index].external && board.table[index].bus in board.present then 1 else 0)
    {
      var data := board.table[index];
      if data.bus !in board.present {
        return false;
      }
      match filter
      case AllBuses =>
        return requested == data.bus || requested == -1;
      case InternalBus =>
        return !data.external && (requested == data.bus || requested == -1);
      case ExternalBus =>
        if data.external {
          externalBusCounter := externalBusCounter + 1;
        }
        return data.external && (requested == data.bus || requested == -1);
    }
  }

  /** Every bus the walk yields is present, passes the filter and is what was asked for; none is missed. */
  lemma {:induction false} WalkExact(b: BoardBuses, filter: FilterType, requested: int, i: nat, bus: int)
    requires i <= Used(b.table)
    ensures bus in Walk(b, filter, requested, i) <==>
      exists k: nat :: i <= k < Used(b.table) && Selected(b, filter, requested, k) && b.table[k].bus == bus
    decreases Used(b.table) - i
  {
    if i < Used(b.table) {
      WalkExact(b, filter, requested, i + 1, bus);
    }
  }
}
