/** The shared list of running I2C/SPI driver instances, and how drivers are started and stopped on it. */
module BusRegistry {
  import Bytes

  datatype BusOption = AllInstances | I2CInternal | I2CExternal | SPIInternal | SPIExternal

  datatype BusType = InvalidBus | I2CBus | SPIBus

  function TypeOf(o: BusOption): BusType {
    match o
    case AllInstances => InvalidBus
    case I2CInternal => I2CBus
    case I2CExternal => I2CBus
    case SPIInternal => SPIBus
    case SPIExternal => SPIBus
  }

  /** A running instance. Device type and address are kept as signed 16-bit and 8-bit numbers. */
  datatype Instance = Instance(moduleName: string, busOption: BusOption, bus: int, deviceType: int, address: int)

  /** What an iterator looks for; device type and address are unsigned 16-bit and 8-bit numbers here. */
  datatype Query = Query(moduleName: string, busOption: BusOption, deviceType: nat, address: nat)

  predicate WellTyped(q: Query) {
    q.deviceType < 0x1_0000 && q.address < 0x100
  }

  function ToInt16(n: nat): int {
    if n < 0x8000 then n else n - 0x1_0000
  }

  function ToInt8(n: nat): int {
    if n < 0x80 then n else n - 0x100
  }

  /** The instance that a driver creates for the query on a bus. */
  function Created(q: Query, bus: int): Instance {
    Instance(q.moduleName, q.busOption, bus, ToInt16(q.deviceType), ToInt8(q.address))
  }

  /** The test of a walk over all running instances. */
  predicate MatchesAny(q: Query, i: Instance) {
    i.moduleName == q.moduleName && q.deviceType == i.deviceType
  }

  /** The test for an instance on one bus. */
  predicate MatchesOn(q: Query, bus: int, i: Instance) {
    && i.moduleName == q.moduleName
    && q.busOption == i.busOption
    && bus == i.bus
    && q.deviceType == i.deviceType
    && (TypeOf(q.busOption).I2CBus? ==> q.address == i.address)
  }

  /** Two instances that must not run side by side. */
  predicate SameKey(i: Instance, j: Instance) {
    && i.moduleName == j.moduleName
    && i.busOption == j.busOption
    && i.bus == j.bus
    && i.deviceType == j.deviceType
    && (TypeOf(i.busOption).I2CBus? ==> i.address == j.address)
  }

  predicate Unique(list: seq<Instance>) {
    forall i, j :: 0 <= i < j < |list| ==> !SameKey(list[i], list[j])
  }

  /** Device type and, for I2C, address keep their value when stored as signed numbers. */
  predicate Representable(q: Query) {
    q.deviceType < 0x8000 && (TypeOf(q.busOption).I2CBus? ==> q.address < 0x80)
  }

  // ----- removing

  function RemoveAt(list: seq<Instance>, i: nat): seq<Instance>
    requires i < |list|
  {
    list[..i] + list[i + 1..]
  }

  /** The list without the instances that a stop of all buses selects, in order. */
  function Without(q: Query, list: seq<Instance>): (r: seq<Instance>)
    ensures |r| <= |list|
  {
    if list == [] then []
    else
      var n := |list| - 1;
      Without(q, list[..n]) + (if MatchesAny(q, list[n]) then [] else [list[n]])
  }

  /** Index of the first instance on `bus` that the query matches, from `i` on; the list's length if none. */
  function FindOn(q: Query, bus: int, list: seq<Instance>, i: nat): (k: nat)
    requires i <= |list|
    ensures i <= k <= |list|
    ensures k < |list| ==> MatchesOn(q, bus, list[k])
    ensures forall j :: i <= j < k ==> !MatchesOn(q, bus, list[j])
    decreases |list| - i
  {
    if i == |list| || MatchesOn(q, bus, list[i]) then i else FindOn(q, bus, list, i + 1)
  }

  function FindAny(q: Query, list: seq<Instance>, i: nat): (k: nat)
    requires i <= |list|
    ensures i <= k <= |list|
    ensures k < |list| ==> MatchesAny(q, list[k])
    ensures forall j :: i <= j < k ==> !MatchesAny(q, list[j])
    decreases |list| - i
  {
    if i == |list| || MatchesAny(q, list[i]) then i else FindAny(q, list, i + 1)
  }

  lemma WithoutSnoc(q: Query, a: seq<Instance>, i: Instance)
    ensures Without(q, a + [i]) == Without(q, a) + (if MatchesAny(q, i) then [] else [i])
  {
    assert (a + [i])[..|a|] == a;
  }

  lemma {:induction false} WithoutSkips(q: Query, a: seq<Instance>, b: seq<Instance>)
    requires forall j :: 0 <= j < |b| ==> !MatchesAny(q, b[j])
    ensures Without(q, a + b) == Without(q, a) + b
    decreases |b|
  {
    if b == [] {
      assert a + b == a;
    } else {
      var n := |b| - 1;
      WithoutSkips(q, a, b[..n]);
      assert b == b[..n] + [b[n]];
      Bytes.Assoc(a, b[..n], [b[n]]);
      WithoutSnoc(q, a + b[..n], b[n]);
      Bytes.Assoc(Without(q, a), b[..n], [b[n]]);
    }
  }

  /** Exactly the instances of the module and type are gone. */
  lemma {:induction false} WithoutExact(q: Query, list: seq<Instance>, i: Instance)
    ensures i in Without(q, list) <==> i in list && !MatchesAny(q, i)
    decreases |list|
  {
    if list != [] {
      var n := |list| - 1;
      WithoutExact(q, list[..n], i);
      assert list == list[..n] + [list[n]];
    }
  }

  /** The instances of other modules or of another device type, in order. */
  function Others(moduleName: string, deviceType: int, list: seq<Instance>): seq<Instance> {
    if list == [] then []
    else
      var n := |list| - 1;
      Others(moduleName, deviceType, list[..n])
        + (if list[n].moduleName == moduleName && list[n].deviceType == deviceType then [] else [list[n]])
  }

  /** Of a module on all buses, exactly the instances of the device type are stopped; the others keep their order. */
  lemma {:induction false} StopAllExactly(q: Query, list: seq<Instance>)
    ensures Without(q, list) == Others(q.moduleName, q.deviceType, list)
    decreases |list|
  {
    if list != [] {
      StopAllExactly(q, list[..|list| - 1]);
    }
  }

  /** What is stored is the signed number with the same lowest bits; the other fields are kept. */
  lemma StoredSigned(q: Query, bus: int)
    requires WellTyped(q)
    ensures var i := Created(q, bus);
      && i.moduleName == q.moduleName && i.busOption == q.busOption && i.bus == bus
      && -0x8000 <= i.deviceType < 0x8000 && (q.deviceType - i.deviceType) % 0x1_0000 == 0
      && -0x80 <= i.address < 0x80 && (q.address - i.address) % 0x100 == 0
  {
  }

  // ----- uniqueness

  lemma UniqueAfterRemove(list: seq<Instance>, i: nat)
    requires Unique(list) && i < |list|
    ensures Unique(RemoveAt(list, i))
  {
  }

  lemma {:induction false} UniqueWithout(q: Query, list: seq<Instance>)
    requires Unique(list)
    ensures Unique(Without(q, list))
    ensures forall i :: 0 <= i < |Without(q, list)| ==> Without(q, list)[i] in list
    decreases |list|
  {
    if list != [] {
      var n := |list| - 1;
      UniqueWithout(q, list[..n]);
      var r := Without(q, list[..n]);
      forall i | 0 <= i < |r|
        ensures !SameKey(r[i], list[n])
      {
        var k :| 0 <= k < n && list[..n][k] == r[i];
      }
    }
  }

  /** A representable query recognises exactly the instances with the key it would create. */
  lemma MatchesItsKey(q: Query, bus: int, i: Instance)
    requires WellTyped(q) && Representable(q)
    ensures MatchesOn(q, bus, i) <==> SameKey(i, Created(q, bus))
  {
  }

  /** A query that is not representable never recognises what it creates. */
  lemma BlindToItsKey(q: Query, bus: int)
    requires WellTyped(q) && !Representable(q)
    ensures !MatchesOn(q, bus, Created(q, bus))
  {
  }

  lemma UniqueAfterAdd(q: Query, bus: int, list: seq<Instance>)
    requires WellTyped(q) && Representable(q) && Unique(list) && FindOn(q, bus, list, 0) == |list|
    ensures Unique(list + [Created(q, bus)])
  {
    forall i | 0 <= i < |list|
      ensures !SameKey(list[i], Created(q, bus))
    {
      MatchesItsKey(q, bus, list[i]);
    }
  }

  // ----- whole commands

  /** The buses up to an end marker. */
  function Visited(buses: seq<int>): seq<int> {
    if buses == [] || buses[0] == -1 then [] else [buses[0]] + Visited(buses[1..])
  }

  /** Stopping bus by bus: on each, the first matching instance goes. */
  function StopOn(q: Query, buses: seq<int>, list: seq<Instance>): seq<Instance>
    decreases |buses|
  {
    if buses == [] then list
    else
      var k := FindOn(q, buses[0], list, 0);
      StopOn(q, buses[1..], if k < |list| then RemoveAt(list, k) else list)
  }

  /** Starting bus by bus: where nothing matches, a driver is tried; `answers` says whether it comes up. */
  function StartOn(q: Query, buses: seq<int>, answers: seq<bool>, list: seq<Instance>): seq<Instance>
    requires |answers| == |buses|
    decreases |buses|
  {
    if buses == [] then list
    else
      var list' := if FindOn(q, buses[0], list, 0) == |list| && answers[0] then list + [Created(q, buses[0])] else list;
      StartOn(q, buses[1..], answers[1..], list')
  }

  datatype Command =
    | Start(q: Query, buses: seq<int>, answers: seq<bool>)
    | Stop(q: Query, buses: seq<int>)

  predicate Sensible(c: Command) {
    WellTyped(c.q) && (c.Start? ==> |c.answers| == |c.buses|)
  }

  /** What is started has a key that it keeps when stored. */
  predicate Storable(c: Command) {
    c.Start? ==> Representable(c.q)
  }

  function Apply(c: Command, list: seq<Instance>): seq<Instance>
    requires Sensible(c)
  {
    match c
    case Start(q, buses, answers) => if q.busOption.AllInstances? then list else StartOn(q, buses, answers, list)
    case Stop(q, buses) => if q.busOption.AllInstances? then Without(q, list) else StopOn(q, buses, list)
  }

  function Execute(cs: seq<Command>, list: seq<Instance>): seq<Instance>
    requires forall i :: 0 <= i < |cs| ==> Sensible(cs[i])
    decreases |cs|
  {
    if cs == [] then list else Execute(cs[1..], Apply(cs[0], list))
  }

  lemma {:induction false} UniqueAfterStop(q: Query, buses: seq<int>, list: seq<Instance>)
    requires Unique(list)
    ensures Unique(StopOn(q, buses, list))
    decreases |buses|
  {
    if buses != [] {
      var k := FindOn(q, buses[0], list, 0);
      if k < |list| {
        UniqueAfterRemove(list, k);
        UniqueAfterStop(q, buses[1..], RemoveAt(list, k));
      } else {
        UniqueAfterStop(q, buses[1..], list);
      }
    }
  }

  lemma {:induction false} UniqueAfterStart(q: Query, buses: seq<int>, answers: seq<bool>, list: seq<Instance>)
    requires WellTyped(q) && Representable(q) && Unique(list) && |answers| == |buses|
    ensures Unique(StartOn(q, buses, answers, list))
    decreases |buses|
  {
    if buses != [] {
      if FindOn(q, buses[0], list, 0) == |list| && answers[0] {
        UniqueAfterAdd(q, buses[0], list);
        UniqueAfterStart(q, buses[1..], answers[1..], list + [Created(q, buses[0])]);
      } else {
        UniqueAfterStart(q, buses[1..], answers[1..], list);
      }
    }
  }

  /** Over every sequence of starts and stops no two running instances share their key. */
  lemma {:induction false} AlwaysUnique(cs: seq<Command>, list: seq<Instance>)
    requires Unique(list) && forall i :: 0 <= i < |cs| ==> Sensible(cs[i]) && Storable(cs[i])
    ensures Unique(Execute(cs, list))
    decreases |cs|
  {
    if cs != [] {
      match cs[0] {
        case Start(q, buses, answers) =>
          if !q.busOption.AllInstances? {
            UniqueAfterStart(q, buses, answers, list);
          }
        case Stop(q, buses) =>
          if q.busOption.AllInstances? {
            UniqueWithout(q, list);
          } else {
            UniqueAfterStop(q, buses, list);
          }
      }
      AlwaysUnique(cs[1..], Apply(cs[0], list));
    }
  }

  lemma StartOne(q: Query, bus: int, list: seq<Instance>)
    ensures StartOn(q, [bus], [true], list) == if FindOn(q, bus, list, 0) == |list| then list + [Created(q, bus)] else list
  {
    assert [bus][1..] == [] && [true][1..] == [];
  }

  lemma ExecuteTwo(a: Command, b: Command, list: seq<Instance>)
    requires Sensible(a) && Sensible(b)
    ensures Execute([a, b], list) == Apply(b, Apply(a, list))
  {
    assert [a, b][1..] == [b] && [b][1..] == [];
    assert Execute([b], Apply(a, list)) == Execute([], Apply(b, Apply(a, list)));
  }

  /** Two start commands for one bus leave a unique list if and only if the key is representable. */
  lemma StartTwiceUnique(q: Query, bus: int)
    requires WellTyped(q) && !q.busOption.AllInstances?
    ensures var start := Start(q, [bus], [true]);
      Unique(Execute([start, start], [])) <==> Representable(q)
  {
    var start := Start(q, [bus], [true]);
    var i := Created(q, bus);
    ExecuteTwo(start, start, []);
    StartOne(q, bus, []);
    assert [] + [i] == [i];
    StartOne(q, bus, [i]);
    if Representable(q) {
      UniqueAfterStart(q, [bus], [true], [i]);
    } else {
      BlindToItsKey(q, bus);
      assert FindOn(q, bus, [i], 0) == 1;
      assert SameKey(([i] + [i])[0], ([i] + [i])[1]);
    }
  }

  predicate Running(q: Query, bus: int, list: seq<Instance>) {
    FindOn(q, bus, list, 0) < |list|
  }

  /** On SPI, where drivers have no address, whatever runs with the module, option, bus and type counts as running. */
  lemma RunningOnSpi(q: Query, bus: int, list: seq<Instance>)
    requires q.busOption.SPIInternal? || q.busOption.SPIExternal?
    ensures Running(q, bus, list) <==>
      exists a :: Instance(q.moduleName, q.busOption, bus, q.deviceType, a) in list
  {
    if a :| Instance(q.moduleName, q.busOption, bus, q.deviceType, a) in list {
      var k :| 0 <= k < |list| && list[k] == Instance(q.moduleName, q.busOption, bus, q.deviceType, a);
      assert MatchesOn(q, bus, list[k]);
    }
    var k := FindOn(q, bus, list, 0);
    if k < |list| {
      assert list[k] == Instance(q.moduleName, q.busOption, bus, q.deviceType, list[k].address);
    }
  }

  lemma NotRunning(q: Query, bus: int, list: seq<Instance>, i: Instance)
    requires !Running(q, bus, list) && i in list
    ensures !MatchesOn(q, bus, i)
  {
  }

  lemma RunningAfterAdd(q: Query, bus: int, list: seq<Instance>, other: int)
    requires WellTyped(q) && Representable(q)
    ensures Running(q, other, list + [Created(q, bus)]) <==> Running(q, other, list) || other == bus
  {
    var list', n := list + [Created(q, bus)], |list|;
    assert list'[n] == Created(q, bus);
    var k, k' := FindOn(q, other, list, 0), FindOn(q, other, list', 0);
    if k < n {
      assert MatchesOn(q, other, list'[k]);
    }
    if k' < n {
      assert MatchesOn(q, other, list[k']);
    }
  }

  /** The walk offers `bus` at place `k`, a device answers there, and the driver was not running. */
  predicate StartsAt(q: Query, buses: seq<int>, answers: seq<bool>, list: seq<Instance>, k: nat, i: Instance)
    requires |answers| == |buses|
  {
    k < |buses| && answers[k] && !Running(q, buses[k], list) && i == Created(q, buses[k])
  }

  predicate Starts(q: Query, buses: seq<int>, answers: seq<bool>, list: seq<Instance>, i: Instance)
    requires |answers| == |buses|
  {
    exists k :: 0 <= k < |buses| && StartsAt(q, buses, answers, list, k, i)
  }

  /** A start adds exactly the instances for visited buses where a device answers and none was running. */
  lemma {:induction false} StartOnExact(q: Query, buses: seq<int>, answers: seq<bool>, list: seq<Instance>, i: Instance)
    requires WellTyped(q) && Representable(q) && |answers| == |buses|
    ensures i in StartOn(q, buses, answers, list) <==> i in list || Starts(q, buses, answers, list, i)
    decreases |buses|
  {
    if buses != [] {
      var bus := buses[0];
      if !Running(q, bus, list) && answers[0] {
        StartOnExact(q, buses[1..], answers[1..], list + [Created(q, bus)], i);
        StartsLater(q, buses, answers, list, i);
      } else {
        StartOnExact(q, buses[1..], answers[1..], list, i);
        StartsNotHere(q, buses, answers, list, i);
      }
    }
  }

  lemma StartsNotHere(q: Query, buses: seq<int>, answers: seq<bool>, list: seq<Instance>, i: Instance)
    requires |answers| == |buses| && buses != [] && !(answers[0] && !Running(q, buses[0], list))
    ensures Starts(q, buses, answers, list, i) <==> Starts(q, buses[1..], answers[1..], list, i)
  {
    if Starts(q, buses, answers, list, i) {
      var k :| 0 <= k < |buses| && StartsAt(q, buses, answers, list, k, i);
      assert StartsAt(q, buses[1..], answers[1..], list, k - 1, i);
    }
    if Starts(q, buses[1..], answers[1..], list, i) {
      var k :| 0 <= k < |buses[1..]| && StartsAt(q, buses[1..], answers[1..], list, k, i);
      assert StartsAt(q, buses, answers, list, k + 1, i);
    }
  }

  lemma StartsLater(q: Query, buses: seq<int>, answers: seq<bool>, list: seq<Instance>, i: Instance)
    requires WellTyped(q) && Representable(q)
    requires |answers| == |buses| && buses != [] && answers[0] && !Running(q, buses[0], list)
    ensures var list' := list + [Created(q, buses[0])];
      i in list' || Starts(q, buses[1..], answers[1..], list', i) <==> i in list || Starts(q, buses, answers, list, i)
  {
    var created := Created(q, buses[0]);
    var list' := list + [created];
    assert StartsAt(q, buses, answers, list, 0, created);
    if Starts(q, buses[1..], answers[1..], list', i) {
      var k :| 0 <= k < |buses[1..]| && StartsAt(q, buses[1..], answers[1..], list', k, i);
      RunningAfterAdd(q, buses[0], list, buses[k + 1]);
      assert StartsAt(q, buses, answers, list, k + 1, i);
    }
    if Starts(q, buses, answers, list, i) && i != created {
      var k :| 0 <= k < |buses| && StartsAt(q, buses, answers, list, k, i);
      RunningAfterAdd(q, buses[0], list, buses[k]);
      assert StartsAt(q, buses[1..], answers[1..], list', k - 1, i);
    }
  }

  /** With a unique list and a representable key, a stop leaves no instance of the key on the visited buses. */
  lemma {:induction false} StopOnExact(q: Query, buses: seq<int>, list: seq<Instance>, i: Instance)
    requires WellTyped(q) && Representable(q) && Unique(list)
    ensures i in StopOn(q, buses, list) <==> i in list && !(i.bus in buses && MatchesOn(q, i.bus, i))
    decreases |buses|
  {
    if buses != [] {
      var bus := buses[0];
      var k := FindOn(q, bus, list, 0);
      var list' := if k < |list| then RemoveAt(list, k) else list;
      assert i in list' <==> i in list && !MatchesOn(q, bus, i) by {
        RemovedExactly(q, bus, list, i);
      }
      if k < |list| {
        UniqueAfterRemove(list, k);
      }
      StopOnExact(q, buses[1..], list', i);
      assert i.bus in buses <==> i.bus == bus || i.bus in buses[1..];
    }
  }

  lemma RemovedExactly(q: Query, bus: int, list: seq<Instance>, i: Instance)
    requires WellTyped(q) && Representable(q) && Unique(list)
    ensures var k := FindOn(q, bus, list, 0);
      i in (if k < |list| then RemoveAt(list, k) else list) <==> i in list && !MatchesOn(q, bus, i)
  {
    var k := FindOn(q, bus, list, 0);
    if k < |list| {
      var r := RemoveAt(list, k);
      if i in r {
        var n :| 0 <= n < |r| && r[n] == i;
        var m := if n < k then n else n + 1;
        assert list[m] == i;
        MatchesItsKey(q, bus, i);
        MatchesItsKey(q, bus, list[k]);
      }
      if i in list && !MatchesOn(q, bus, i) {
        var m :| 0 <= m < |list| && list[m] == i;
        assert i == r[if m < k then m else m - 1];
      }
    }
  }

  // ----- the iterator and the commands on it

  class Registry {
    var instances: seq<Instance>

    constructor ()
      ensures instances == []
    {
      instances := [];
    }
  }

  /** Holds the list's lock for its whole life. The current position is an index, -1 standing for the end. */
  class BusInstanceIterator {
    const registry: Registry
    const q: Query
    /** The buses that the bus walk still has to offer. */
    var pending: seq<int>
    var bus: int
    var current: int

    ghost predicate Valid()
      reads this, registry
    {
      -1 <= current < |registry.instances|
    }

    constructor (r: Registry, query: Query, buses: seq<int>)
      ensures Valid() && registry == r && q == query && pending == buses && current == -1
    {
      registry, q, pending, bus, current := r, query, buses, -1, -1;
    }

    /** The next running instance for `All`; otherwise the next bus, with the instance running there, if any. */
    method Next() returns (more: bool)
      requires Valid()
      modifies this
      ensures Valid()
      ensures q.busOption.AllInstances? ==>
        var k := FindAny(q, registry.instances, old(current) + 1);
        && pending == old(pending)
        && (more <==> k < |registry.instances|)
        && current == if more then k else -1
      ensures !q.busOption.AllInstances? ==>
        && (more <==> Visited(old(pending)) != [])
        && (more ==> old(pending) == [bus] + pending && bus != -1
                     && var k := FindOn(q, bus, registry.instances, 0);
                     current == if k < |registry.instances| then k else -1)
    {
      var list := registry.instances;
      if TypeOf(q.busOption).InvalidBus? {
        var k := if current == -1 then 0 else current + 1;
        while k < |list| && !MatchesAny(q, list[k])
          invariant 0 <= k <= |list|
          invariant FindAny(q, list, old(current) + 1) == FindAny(q, list, k)
        {
          k := k + 1;
        }
        current := if k < |list| then k else -1;
        return k < |list|;
      }
      bus := -1;
      if |pending| > 0 {
        bus, pending := pending[0], pending[1..];
      }
      if bus == -1 {
        return false;
      }
      var k := 0;
      while k < |list| && !MatchesOn(q, bus, list[k])
        invariant 0 <= k <= |list|
        invariant FindOn(q, bus, list, 0) == FindOn(q, bus, list, k)
      {
        k := k + 1;
      }
      current := if k < |list| then k else -1;
      return true;
    }

    /** Takes the current instance off the list and steps back to the one before it, or to the end marker. */
    method RemoveInstance()
      requires Valid() && current >= 0
      modifies this`current, registry
      ensures Valid()
      ensures registry.instances == RemoveAt(old(registry.instances), old(current)) && current == old(current) - 1
    {
      registry.instances := registry.instances[..current] + registry.instances[current + 1..];
      current := current - 1;
    }

    /** Adds an instance at the end of the list. */
    method AddInstance(i: Instance)
      requires Valid()
      modifies registry
      ensures Valid() && registry.instances == old(registry.instances) + [i]
    {
      registry.instances := registry.instances + [i];
    }

    method RunningInstancesCount() returns (n: nat)
      ensures n == |set k | 0 <= k < |registry.instances| && registry.instances[k].moduleName == q.moduleName|
    {
      n := 0;
      ghost var seen: set<int> := {};
      for k := 0 to |registry.instances|
        invariant seen == set j | 0 <= j < k && registry.instances[j].moduleName == q.moduleName
        invariant n == |seen|
      {
        if registry.instances[k].moduleName == q.moduleName {
          n := n + 1;
          seen := seen + {k};
        }
      }
    }
  }

  /** Stops every running instance of module and type; removes from the list while walking it. */
  method StopAll(it: BusInstanceIterator) returns (isRunning: bool)
    requires it.Valid() && it.q.busOption.AllInstances? && it.current == -1
    modifies it, it.registry
    ensures it.registry.instances == Without(it.q, old(it.registry.instances))
    ensures isRunning <==> it.registry.instances != old(it.registry.instances)
  {
    ghost var list, q := it.registry.instances, it.q;
    ghost var k := 0;
    isRunning := false;
    PartlyStart(q, list);
    var more := true;
    while more
      invariant it.Valid() && 0 <= k <= |list|
      invariant it.registry.instances == if more then Partly(q, list, k) else Without(q, list)
      invariant more ==> it.current == Kept(q, list, k) - 1
      invariant if isRunning then |it.registry.instances| < |list| else it.registry.instances == list
      decreases |list| - k, more
    {
      more, k := StopNext(it, list, k);
      if more {
        isRunning := true;
      }
    }
  }

  /** Moves on to the next instance to stop and takes it off the list. */
  method StopNext(it: BusInstanceIterator, ghost list: seq<Instance>, ghost k: nat) returns (more: bool, ghost k': nat)
    requires it.Valid() && it.q.busOption.AllInstances? && k <= |list|
    requires it.registry.instances == Partly(it.q, list, k) && it.current == Kept(it.q, list, k) - 1
    modifies it, it.registry
    ensures it.Valid() && k <= k' <= |list|
    ensures more ==> k < k' && it.registry.instances == Partly(it.q, list, k') && it.current == Kept(it.q, list, k') - 1
    ensures more ==> |it.registry.instances| == |old(it.registry.instances)| - 1
    ensures !more ==> it.registry.instances == old(it.registry.instances) == Without(it.q, list)
  {
    more := it.Next();
    k' := k;
    if more {
      StopFound(it.q, list, k, it.current);
      k' := k + (it.current - Kept(it.q, list, k)) + 1;
      it.RemoveInstance();
    } else {
      StopDone(it.q, list, k);
    }
  }

  /** The list when the walk has dealt with its first `k` instances, and how many of those it kept. */
  ghost function Partly(q: Query, list: seq<Instance>, k: nat): (r: seq<Instance>)
    requires k <= |list|
    ensures |r| == Kept(q, list, k) + |list| - k
  {
    Without(q, list[..k]) + list[k..]
  }

  ghost function Kept(q: Query, list: seq<Instance>, k: nat): nat
    requires k <= |list|
  {
    |Without(q, list[..k])|
  }

  lemma PartlyStart(q: Query, list: seq<Instance>)
    ensures Partly(q, list, 0) == list && Kept(q, list, 0) == 0
  {
    assert list[..0] == [];
  }

  /** Between two removals the walk passes instances that it keeps. */
  lemma StopFound(q: Query, list: seq<Instance>, k: nat, n: nat)
    requires k <= |list| && n == FindAny(q, Partly(q, list, k), Kept(q, list, k)) < |Partly(q, list, k)|
    ensures var k' := k + (n - Kept(q, list, k)) + 1;
      && k < k' <= |list|
      && Kept(q, list, k') == n
      && Partly(q, list, k') == RemoveAt(Partly(q, list, k), n)
  {
    var kept := Without(q, list[..k]);
    var now, d := kept + list[k..], n - |kept|;
    assert now[n] == list[k + d];
    forall j | k <= j < k + d
      ensures !MatchesAny(q, list[j])
    {
      assert list[j] == now[|kept| + (j - k)];
    }
    StopStep(q, list, k, d);
    RemoveBehind(kept, list, k, d);
  }

  lemma StopStep(q: Query, list: seq<Instance>, k: nat, d: nat)
    requires k + d < |list| && MatchesAny(q, list[k + d])
    requires forall j :: k <= j < k + d ==> !MatchesAny(q, list[j])
    ensures Without(q, list[..k + d + 1]) == Without(q, list[..k]) + list[k..k + d]
  {
    WithoutSkips(q, list[..k], list[k..k + d]);
    assert list[..k + d] == list[..k] + list[k..k + d];
    assert list[..k + d + 1] == list[..k + d] + [list[k + d]];
    WithoutSnoc(q, list[..k + d], list[k + d]);
  }

  lemma RemoveBehind(kept: seq<Instance>, list: seq<Instance>, k: nat, d: nat)
    requires k + d < |list|
    ensures RemoveAt(kept + list[k..], |kept| + d) == kept + list[k..k + d] + list[k + d + 1..]
  {
    var now := kept + list[k..];
    assert now[..|kept| + d] == kept + list[k..k + d];
    assert now[|kept| + d + 1..] == list[k + d + 1..];
  }

  lemma StopDone(q: Query, list: seq<Instance>, k: nat)
    requires k <= |list| && FindAny(q, Partly(q, list, k), Kept(q, list, k)) == |Partly(q, list, k)|
    ensures Without(q, list) == Partly(q, list, k)
  {
    var rest := list[k..];
    NoneLeft(q, Without(q, list[..k]), rest);
    WithoutSkips(q, list[..k], rest);
    assert list == list[..k] + rest;
  }

  lemma NoneLeft(q: Query, kept: seq<Instance>, rest: seq<Instance>)
    requires FindAny(q, kept + rest, |kept|) == |kept + rest|
    ensures forall j :: 0 <= j < |rest| ==> !MatchesAny(q, rest[j])
  {
    forall j | 0 <= j < |rest|
      ensures !MatchesAny(q, rest[j])
    {
      assert rest[j] == (kept + rest)[|kept| + j];
    }
  }

  /** Stops bus by bus; on each visited bus the instance that matches goes. */
  method StopOnBuses(it: BusInstanceIterator) returns (isRunning: bool)
    requires it.Valid() && !it.q.busOption.AllInstances?
    modifies it, it.registry
    ensures it.registry.instances == StopOn(it.q, Visited(old(it.pending)), old(it.registry.instances))
    ensures isRunning <==> it.registry.instances != old(it.registry.instances)
  {
    isRunning := false;
    while true
      invariant it.Valid()
      invariant if isRunning then |it.registry.instances| < |old(it.registry.instances)|
                else it.registry.instances == old(it.registry.instances)
      invariant StopOn(it.q, Visited(old(it.pending)), old(it.registry.instances))
             == StopOn(it.q, Visited(it.pending), it.registry.instances)
      decreases |it.pending|
    {
      ghost var before := it.pending;
      var more := it.Next();
      if !more {
        break;
      }
      assert before[1..] == it.pending && Visited(before) == [it.bus] + Visited(it.pending);
      assert Visited(before)[1..] == Visited(it.pending);
      if it.current != -1 {
        it.RemoveInstance();
        isRunning := true;
      }
    }
  }

  /** Stops running instances: all of the module and type, or those on the buses of the walk. */
  method ModuleStop(it: BusInstanceIterator) returns (isRunning: bool)
    requires it.Valid() && it.current == -1 && WellTyped(it.q)
    modifies it, it.registry
    ensures it.registry.instances == Apply(Stop(it.q, Visited(old(it.pending))), old(it.registry.instances))
    ensures isRunning <==> it.registry.instances != old(it.registry.instances)
  {
    if it.q.busOption.AllInstances? {
      isRunning := StopAll(it);
    } else {
      isRunning := StopOnBuses(it);
    }
  }

  /** Starts the driver on every bus where it is not running yet; `answers` says where a device is found. */
  method ModuleStart(it: BusInstanceIterator, answers: seq<bool>) returns (started: bool)
    requires it.Valid() && |answers| == |Visited(it.pending)|
    modifies it, it.registry
    ensures it.q.busOption.AllInstances? ==> it.registry.instances == old(it.registry.instances)
    ensures started <==> it.registry.instances != old(it.registry.instances)
    ensures !it.q.busOption.AllInstances? ==>
      it.registry.instances == StartOn(it.q, Visited(old(it.pending)), answers, old(it.registry.instances))
  {
    if it.q.busOption.AllInstances? {
      return false;
    }
    started := false;
    var n := 0;
    assert answers[0..] == answers;
    while true
      invariant it.Valid() && 0 <= n <= |answers| && |answers| - n == |Visited(it.pending)|
      invariant if started then |it.registry.instances| > |old(it.registry.instances)|
                else it.registry.instances == old(it.registry.instances)
      invariant StartOn(it.q, Visited(old(it.pending)), answers, old(it.registry.instances))
             == StartOn(it.q, Visited(it.pending), answers[n..], it.registry.instances)
      decreases |answers| - n
    {
      ghost var before := it.pending;
      var more := it.Next();
      if !more {
        break;
      }
      assert before[1..] == it.pending && Visited(before) == [it.bus] + Visited(it.pending);
      assert Visited(before)[1..] == Visited(it.pending) && answers[n..][1..] == answers[n + 1..];
      if it.current == -1 && answers[n] {
        it.AddInstance(Created(it.q, it.bus));
        started := true;
      }
      n := n + 1;
    }
  }
}
