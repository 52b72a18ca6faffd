/** Start and stop commands for an I2C driver: the bus walk over the board, and the registry. */
module BusCommands {
  import opened Bytes
  import opened BusWalk
  import opened BusRegistry

  function FilterOf(o: BusOption): FilterType {
    match o
    case AllInstances => AllBuses
    case I2CInternal => InternalBus
    case I2CExternal => ExternalBus
    case SPIInternal => AllBuses
    case SPIExternal => AllBuses
  }

  /** The buses that a command visits. */
  function Buses(b: BoardBuses, q: Query, requested: int): seq<int> {
    Walk(b, FilterOf(q.busOption), requested, 0)
  }

  /** `bus` is a used entry of the board that the command selects. */
  predicate Selects(b: BoardBuses, q: Query, requested: int, bus: int) {
    exists k: nat :: k < Used(b.table) && Selected(b, FilterOf(q.busOption), requested, k) && b.table[k].bus == bus
  }

  lemma BusesExact(b: BoardBuses, q: Query, requested: int, bus: int)
    ensures bus in Buses(b, q, requested) <==> Selects(b, q, requested, bus)
  {
    WalkExact(b, FilterOf(q.busOption), requested, 0, bus);
  }

  /** No walk yields the end marker, so that a command visits every bus it yields. */
  lemma {:induction false} VisitedAll(b: BoardBuses, filter: FilterType, requested: int, i: nat)
    requires i <= Used(b.table)
    ensures Visited(Walk(b, filter, requested, i)) == Walk(b, filter, requested, i)
    decreases Used(b.table) - i
  {
    if i < Used(b.table) {
      VisitedAll(b, filter, requested, i + 1);
      var later := Walk(b, filter, requested, i + 1);
      if Selected(b, filter, requested, i) {
        assert ([b.table[i].bus] + later)[1..] == later;
      } else {
        assert [] + later == later;
      }
    }
  }

  /** What the bus iterator object offers, bus by bus. */
  method Collect(it: I2CBusIterator) returns (buses: seq<int>)
    requires it.Valid() && it.index < Used(it.board.table)
    modifies it
    ensures buses == old(it.Remaining())
  {
    buses := [];
    var found := true;
    while found
      invariant it.Valid() && old(it.Remaining()) == buses + it.Remaining()
      invariant found ==> it.index < Used(it.board.table)
      invariant !found ==> it.Remaining() == []
      decreases |it.Remaining()|, found
    {
      ghost var before := it.Remaining();
      found := it.Next();
      if found {
        Assoc(buses, [it.board.table[it.index].bus], it.Remaining());
        buses := buses + [it.board.table[it.index].bus];
        if it.index == Used(it.board.table) {
          found := false;
        }
      }
    }
  }

  method BusesOf(b: BoardBuses, q: Query, requested: int) returns (buses: seq<int>)
    ensures buses == Visited(buses) == Buses(b, q, requested)
  {
    VisitedAll(b, FilterOf(q.busOption), requested, 0);
    if Used(b.table) == 0 {
      return [];
    }
    var walk := new I2CBusIterator(b, FilterOf(q.busOption), requested);
    buses := Collect(walk);
  }

  /** A device answers on every bus the walk yields. */
  function AllAnswer(n: nat): seq<bool> {
    seq(n, _ => true)
  }

  /**
   * On a board where every device answers, a start leaves running exactly what was, and one instance for each used
   * bus that the command selects and where none was running.
   */
  lemma StartsExactly(b: BoardBuses, q: Query, requested: int, list: seq<Instance>, i: Instance)
    requires WellTyped(q) && Representable(q)
    ensures var buses := Buses(b, q, requested);
      i in StartOn(q, buses, AllAnswer(|buses|), list) <==>
      i in list || (Selects(b, q, requested, i.bus) && i == Created(q, i.bus) && !Running(q, i.bus, list))
  {
    var buses := Buses(b, q, requested);
    var answers := AllAnswer(|buses|);
    StartOnExact(q, buses, answers, list, i);
    BusesExact(b, q, requested, i.bus);
    if i.bus in buses && i == Created(q, i.bus) && !Running(q, i.bus, list) {
      var k :| 0 <= k < |buses| && buses[k] == i.bus;
      assert StartsAt(q, buses, answers, list, k, i);
    }
  }

  /** A stop removes exactly the matching instances on used buses that the command selects. */
  lemma StopsExactly(b: BoardBuses, q: Query, requested: int, list: seq<Instance>, i: Instance)
    requires WellTyped(q) && Representable(q) && Unique(list)
    ensures i in StopOn(q, Buses(b, q, requested), list) <==>
      i in list && !(Selects(b, q, requested, i.bus) && MatchesOn(q, i.bus, i))
  {
    StopOnExact(q, Buses(b, q, requested), list, i);
    BusesExact(b, q, requested, i.bus);
  }

  /** What a start on the board began, a stop of the same command ends: nothing of its key runs on those buses. */
  lemma StartThenStop(b: BoardBuses, q: Query, requested: int, list: seq<Instance>, i: Instance)
    requires WellTyped(q) && Representable(q) && Unique(list)
    requires forall bus :: bus in Buses(b, q, requested) ==> !Running(q, bus, list)
    ensures var buses := Buses(b, q, requested);
      i in StopOn(q, buses, StartOn(q, buses, AllAnswer(|buses|), list)) <==> i in list
  {
    var buses := Buses(b, q, requested);
    var started := StartOn(q, buses, AllAnswer(|buses|), list);
    UniqueAfterStart(q, buses, AllAnswer(|buses|), list);
    StopsExactly(b, q, requested, started, i);
    StartsExactly(b, q, requested, list, i);
    BusesExact(b, q, requested, i.bus);
    MatchesItsKey(q, i.bus, i);
    if i in list && i.bus in buses {
      NotRunning(q, i.bus, list, i);
    }
  }

  // ----- in terms of the board's table

  /**
   * The board has `bus`, it is a used entry of the table, on the external side or on the internal one as asked for,
   * and it is the bus that was requested, -1 asking for all.
   */
  predicate Reaches(b: BoardBuses, external: bool, requested: int, bus: int) {
    && bus in b.present && (requested == -1 || requested == bus)
    && exists k: nat :: k < |b.table| && (forall j :: 0 <= j <= k ==> b.table[j].bus != -1) && b.table[k] == BusEntry(bus, external)
  }

  /** What a driver of the query on `bus` is in the list, if type and address fit their signed fields. */
  function Driver(q: Query, bus: int): Instance {
    Instance(q.moduleName, q.busOption, bus, q.deviceType, q.address)
  }

  lemma UsedExactly(table: seq<BusEntry>, k: nat)
    requires k < |table|
    ensures k < Used(table) <==> forall j :: 0 <= j <= k ==> table[j].bus != -1
  {
  }

  /** An internal command visits exactly the internal buses it may, an external one the external ones. */
  lemma BusesReached(b: BoardBuses, q: Query, external: bool, requested: int, bus: int)
    requires q.busOption == (if external then I2CExternal else I2CInternal)
    ensures bus in Buses(b, q, requested) <==> Reaches(b, external, requested, bus)
  {
    BusesExact(b, q, requested, bus);
    if Selects(b, q, requested, bus) {
      var k: nat :| k < Used(b.table) && Selected(b, FilterOf(q.busOption), requested, k) && b.table[k].bus == bus;
      UsedExactly(b.table, k);
      assert b.table[k] == BusEntry(bus, external);
    }
    if Reaches(b, external, requested, bus) {
      var k: nat :| k < |b.table| && (forall j :: 0 <= j <= k ==> b.table[j].bus != -1) && b.table[k] == BusEntry(bus, external);
      UsedExactly(b.table, k);
      assert Selected(b, FilterOf(q.busOption), requested, k);
    }
  }

  /** A device answers on the buses in `devices`, and on no other. */
  function AnswersOn(devices: set<int>, buses: seq<int>): (answers: seq<bool>)
    ensures |answers| == |buses|
  {
    seq(|buses|, k requires 0 <= k < |buses| => buses[k] in devices)
  }

  /** For one I2C address, an instance matches on its bus exactly if it is the driver that would be started there. */
  lemma RunningExactly(q: Query, bus: int, list: seq<Instance>)
    requires TypeOf(q.busOption).I2CBus?
    ensures Running(q, bus, list) <==> Driver(q, bus) in list
  {
    if Driver(q, bus) in list {
      var k :| 0 <= k < |list| && list[k] == Driver(q, bus);
      assert MatchesOn(q, bus, list[k]);
    }
  }

  /**
   * An internal start adds an instance on a bus if and only if the board has it as a used internal bus, it was asked
   * for, a device answers there and the driver was not running there; an external start likewise.
   */
  lemma StartReaches(b: BoardBuses, q: Query, external: bool, requested: int, devices: set<int>, list: seq<Instance>, i: Instance)
    requires q.busOption == (if external then I2CExternal else I2CInternal)
    requires q.deviceType < 0x8000 && q.address < 0x80
    ensures var buses := Buses(b, q, requested);
      i in StartOn(q, buses, AnswersOn(devices, buses), list) <==>
      i in list
      || (i == Driver(q, i.bus) && Reaches(b, external, requested, i.bus) && i.bus in devices && Driver(q, i.bus) !in list)
  {
    var buses := Buses(b, q, requested);
    var answers := AnswersOn(devices, buses);
    StartOnExact(q, buses, answers, list, i);
    BusesReached(b, q, external, requested, i.bus);
    RunningExactly(q, i.bus, list);
    assert Created(q, i.bus) == Driver(q, i.bus);
    if Starts(q, buses, answers, list, i) {
      var k :| 0 <= k < |buses| && StartsAt(q, buses, answers, list, k, i);
    }
    if i == Driver(q, i.bus) && i.bus in buses && i.bus in devices && !Running(q, i.bus, list) {
      var k :| 0 <= k < |buses| && buses[k] == i.bus;
      assert StartsAt(q, buses, answers, list, k, i);
    }
  }

  /** A stop takes away exactly the driver on those buses, and leaves every other instance. */
  lemma StopReaches(b: BoardBuses, q: Query, external: bool, requested: int, list: seq<Instance>, i: Instance)
    requires q.busOption == (if external then I2CExternal else I2CInternal)
    requires q.deviceType < 0x8000 && q.address < 0x80 && Unique(list)
    ensures i in StopOn(q, Buses(b, q, requested), list) <==>
      i in list && !(i == Driver(q, i.bus) && Reaches(b, external, requested, i.bus))
  {
    StopOnExact(q, Buses(b, q, requested), list, i);
    BusesReached(b, q, external, requested, i.bus);
  }

  // ----- the objects

  /** A start command on the board, `devices` being the buses where a device answers. */
  method StartOnBoard(r: Registry, b: BoardBuses, q: Query, requested: int, devices: set<int>) returns (started: bool)
    requires TypeOf(q.busOption).I2CBus?
    modifies r
    ensures r.instances == StartOn(q, Buses(b, q, requested), AnswersOn(devices, Buses(b, q, requested)), old(r.instances))
    ensures started <==> r.instances != old(r.instances)
    ensures q.deviceType < 0x8000 && q.address < 0x80 ==>
      forall i :: i in r.instances <==>
        i in old(r.instances)
        || (i == Driver(q, i.bus) && Reaches(b, q.busOption.I2CExternal?, requested, i.bus) && i.bus in devices
            && Driver(q, i.bus) !in old(r.instances))
  {
    var buses := BusesOf(b, q, requested);
    var it := new BusInstanceIterator(r, q, buses);
    ghost var before := r.instances;
    started := ModuleStart(it, AnswersOn(devices, buses));
    if q.deviceType < 0x8000 && q.address < 0x80 {
      forall i: Instance
        ensures i in r.instances <==>
          i in before
          || (i == Driver(q, i.bus) && Reaches(b, q.busOption.I2CExternal?, requested, i.bus) && i.bus in devices
              && Driver(q, i.bus) !in before)
      {
        StartReaches(b, q, q.busOption.I2CExternal?, requested, devices, before, i);
      }
    }
  }

  /** A stop command on the board. */
  method StopOnBoard(r: Registry, b: BoardBuses, q: Query, requested: int) returns (stopped: bool)
    requires TypeOf(q.busOption).I2CBus? && WellTyped(q)
    modifies r
    ensures r.instances == StopOn(q, Buses(b, q, requested), old(r.instances))
    ensures stopped <==> r.instances != old(r.instances)
    ensures q.deviceType < 0x8000 && q.address < 0x80 && Unique(old(r.instances)) ==>
      forall i :: i in r.instances <==>
        i in old(r.instances) && !(i == Driver(q, i.bus) && Reaches(b, q.busOption.I2CExternal?, requested, i.bus))
  {
    var buses := BusesOf(b, q, requested);
    var it := new BusInstanceIterator(r, q, buses);
    ghost var before := r.instances;
    stopped := ModuleStop(it);
    if q.deviceType < 0x8000 && q.address < 0x80 && Unique(before) {
      forall i: Instance
        ensures i in r.instances <==>
          i in before && !(i == Driver(q, i.bus) && Reaches(b, q.busOption.I2CExternal?, requested, i.bus))
      {
        StopReaches(b, q, q.busOption.I2CExternal?, requested, before, i);
      }
    }
  }
}
