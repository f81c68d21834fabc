/** `_get_devices` of src/modules/bluetooth/linux/core.c: the list of devices, filtered by
    state, written into an array sized from the number of objects less two. */
module DeviceList {
  import opened ArtikTypes
  import opened Listings
  import opened ObjectTree

  datatype State = Paired | Connected | Any

  /** The two D-Bus queries about a path, as answered during the call. */
  datatype Answers = Answers(paired: string -> bool, connected: string -> bool)

  predicate Wanted(path: string, state: State, ask: Answers) {
    match state
    case Paired => ask.paired(path)
    case Connected => ask.connected(path)
    case Any => true
  }

  /** The device interfaces among the first `j` of an object, as their properties. */
  function DeviceIfaces(ifaces: seq<Iface>, j: nat): seq<seq<Prop>>
    requires j <= |ifaces|
  {
    if j == 0 then []
    else DeviceIfaces(ifaces, j - 1) + if SameNoCase(ifaces[j - 1].name, DEVICE1) then [ifaces[j - 1].props] else []
  }

  function Devices(o: Object, state: State, ask: Answers): seq<seq<Prop>> {
    if Wanted(o.path, state, ask) then DeviceIfaces(o.ifaces, |o.ifaces|) else []
  }

  /** What is written, object by object, from the third one up to the `k`-th. */
  function Written(objs: seq<Object>, state: State, ask: Answers, k: nat): seq<seq<Prop>>
    requires k <= |objs|
  {
    if k <= 2 then [] else Written(objs, state, ask, k - 1) + Devices(objs[k - 1], state, ask)
  }

  function Slots(objs: seq<Object>): nat {
    if |objs| < 2 then 0 else |objs| - 2
  }

  /** One device interface at most per object. */
  ghost predicate OneDeviceEach(objs: seq<Object>) {
    forall i: nat, j: nat, k: nat :: DeviceAt(objs, i, j) && DeviceAt(objs, i, k) ==> j == k
  }

  // ---------------------------------------------------------------- exactly when the array suffices

  /** The object at `i` has a device interface at `j`. */
  predicate DeviceAt(objs: seq<Object>, i: nat, j: nat) {
    i < |objs| && j < |objs[i].ifaces| && SameNoCase(objs[i].ifaces[j].name, DEVICE1)
  }

  /** The places of the first `j` device interfaces of the object at `i`. */
  ghost function Row(objs: seq<Object>, i: nat, j: nat): set<(nat, nat)>
    requires i < |objs| && j <= |objs[i].ifaces|
  {
    set n: nat | n < j && DeviceAt(objs, i, n) :: (i, n)
  }

  /** Where the device interfaces are, from the third object up to the `k`-th. */
  ghost function Places(objs: seq<Object>, k: nat): set<(nat, nat)>
    requires k <= |objs|
  {
    set i: nat, j: nat | 2 <= i < k && j < |objs[i].ifaces| && DeviceAt(objs, i, j) :: (i, j)
  }

  /** Those of them whose object is in the wanted state. */
  ghost function WantedPlaces(objs: seq<Object>, state: State, ask: Answers, k: nat): set<(nat, nat)>
    requires k <= |objs|
  {
    set p | p in Places(objs, k) && Wanted(objs[p.0].path, state, ask)
  }

  lemma RowStep(objs: seq<Object>, i: nat, j: nat)
    requires i < |objs| && 0 < j <= |objs[i].ifaces|
    ensures Row(objs, i, j) == Row(objs, i, j - 1) + if DeviceAt(objs, i, j - 1) then {(i, j - 1)} else {}
    ensures (i, j - 1) !in Row(objs, i, j - 1)
  {
  }

  lemma {:induction false} RowCounted(objs: seq<Object>, i: nat, j: nat)
    requires i < |objs| && j <= |objs[i].ifaces|
    ensures |Row(objs, i, j)| == |DeviceIfaces(objs[i].ifaces, j)|
  {
    if j > 0 {
      RowCounted(objs, i, j - 1);
      RowStep(objs, i, j);
    } else {
      assert Row(objs, i, j) == {};
    }
  }

  lemma PlacesStep(objs: seq<Object>, state: State, ask: Answers, k: nat)
    requires 2 < k <= |objs|
    ensures var before, o := WantedPlaces(objs, state, ask, k - 1), objs[k - 1];
      var row := if Wanted(o.path, state, ask) then Row(objs, k - 1, |o.ifaces|) else {};
      WantedPlaces(objs, state, ask, k) == before + row && before !! row
  {
    forall i: nat, j: nat
      ensures (i, j) in Places(objs, k) <==> (i, j) in Places(objs, k - 1) || (i == k - 1 && DeviceAt(objs, i, j))
    {
    }
  }

  lemma PlacesCounted(objs: seq<Object>, state: State, ask: Answers, k: nat)
    requires 2 < k <= |objs|
    ensures |WantedPlaces(objs, state, ask, k)| ==
            |WantedPlaces(objs, state, ask, k - 1)| + |Devices(objs[k - 1], state, ask)|
  {
    PlacesStep(objs, state, ask, k);
    RowCounted(objs, k - 1, |objs[k - 1].ifaces|);
  }

  /** What is written is one item for every wanted place. */
  lemma {:induction false} WrittenCounted(objs: seq<Object>, state: State, ask: Answers, k: nat)
    requires k <= |objs|
    ensures |Written(objs, state, ask, k)| == |WantedPlaces(objs, state, ask, k)|
  {
    if k <= 2 {
      assert WantedPlaces(objs, state, ask, k) == {};
    } else {
      WrittenCounted(objs, state, ask, k - 1);
      PlacesCounted(objs, state, ask, k);
    }
  }

  /** For one query: what is written fits exactly if the device interfaces in the wanted state
      are no more than the objects less two. */
  lemma QueryFitsIff(objs: seq<Object>, state: State, ask: Answers)
    ensures |Written(objs, state, ask, |objs|)| <= Slots(objs) <==>
            |WantedPlaces(objs, state, ask, |objs|)| <= Slots(objs)
  {
    WrittenCounted(objs, state, ask, |objs|);
  }

  lemma {:induction false} SubsetIsNoLarger<T>(x: set<T>, y: set<T>)
    requires x <= y
    ensures |x| <= |y|
  {
    if x != {} {
      var e :| e in x;
      SubsetIsNoLarger(x - {e}, y - {e});
    }
  }

  /** For a snapshot: no query overruns the array, whatever it asks for and however the state
      queries are answered, exactly if all device interfaces together are no more than that. */
  lemma SnapshotFitsIff(objs: seq<Object>)
    ensures (forall state, ask :: |Written(objs, state, ask, |objs|)| <= Slots(objs)) <==>
            |Places(objs, |objs|)| <= Slots(objs)
  {
    forall state, ask
      ensures |Written(objs, state, ask, |objs|)| <= |Places(objs, |objs|)|
    {
      WrittenCounted(objs, state, ask, |objs|);
      SubsetIsNoLarger(WantedPlaces(objs, state, ask, |objs|), Places(objs, |objs|));
    }
    var ask := Answers(_ => true, _ => true);
    WrittenCounted(objs, Any, ask, |objs|);
    assert WantedPlaces(objs, Any, ask, |objs|) == Places(objs, |objs|);
  }

  /** Two device interfaces on the third of three objects are one too many; with a fourth object
      that carries none they fit again. */
  lemma TwoDeviceInterfaces(objs: seq<Object>, last: Object)
    requires |objs| == 3 && |objs[2].ifaces| == 2 && last.ifaces == []
    requires DeviceAt(objs, 2, 0) && DeviceAt(objs, 2, 1)
    ensures |Places(objs, 3)| == Slots(objs) + 1
    ensures |Places(objs + [last], 4)| == Slots(objs + [last])
  {
    assert Places(objs, 3) == {(2, 0), (2, 1)};
    var more := objs + [last];
    assert more[2] == objs[2] && more[3] == last;
    assert DeviceAt(more, 2, 0) && DeviceAt(more, 2, 1);
    assert Places(more, 4) == {(2, 0), (2, 1)};
  }

  // ---------------------------------------------------------------- the first two objects

  /** What would be written if no object were passed over. */
  function FromFirst(objs: seq<Object>, state: State, ask: Answers, k: nat): seq<seq<Prop>>
    requires k <= |objs|
  {
    if k == 0 then [] else FromFirst(objs, state, ask, k - 1) + Devices(objs[k - 1], state, ask)
  }

  lemma {:induction false} WrittenIsTheRest(objs: seq<Object>, state: State, ask: Answers, k: nat)
    requires k <= |objs|
    ensures FromFirst(objs, state, ask, k) ==
            FromFirst(objs, state, ask, if k < 2 then k else 2) + Written(objs, state, ask, k)
  {
    if k > 2 {
      WrittenIsTheRest(objs, state, ask, k - 1);
    }
  }

  ghost predicate WantedDevice(o: Object, state: State, ask: Answers) {
    HasDevice(o) && Wanted(o.path, state, ask)
  }

  lemma DevicesEmptyIff(o: Object, state: State, ask: Answers)
    ensures Devices(o, state, ask) == [] <==> !WantedDevice(o, state, ask)
  {
    DeviceIfacesEmptyIff(o.ifaces, |o.ifaces|);
  }

  /** The code takes the first two objects for an agent manager and an adapter. No wanted device
      is missing from the list exactly if neither of them is a wanted device. */
  lemma NothingMissingIff(objs: seq<Object>, state: State, ask: Answers)
    ensures Written(objs, state, ask, |objs|) == FromFirst(objs, state, ask, |objs|) <==>
            forall i :: 0 <= i < |objs| && i < 2 ==> !WantedDevice(objs[i], state, ask)
  {
    WrittenIsTheRest(objs, state, ask, |objs|);
    Skipped(objs, state, ask);
    var n := if |objs| < 2 then |objs| else 2;
    var skipped, rest := FromFirst(objs, state, ask, n), Written(objs, state, ask, |objs|);
    assert rest == skipped + rest <==> skipped == [] by {
      assert |skipped + rest| == |skipped| + |rest|;
    }
  }

  lemma Skipped(objs: seq<Object>, state: State, ask: Answers)
    ensures FromFirst(objs, state, ask, if |objs| < 2 then |objs| else 2) == [] <==>
            forall i :: 0 <= i < |objs| && i < 2 ==> !WantedDevice(objs[i], state, ask)
  {
    if |objs| > 0 {
      assert FromFirst(objs, state, ask, 1) == FromFirst(objs, state, ask, 0) + Devices(objs[0], state, ask);
      DevicesEmptyIff(objs[0], state, ask);
    }
    if |objs| > 1 {
      DevicesEmptyIff(objs[1], state, ask);
    }
  }

  // ---------------------------------------------------------------- the loops

  lemma {:induction false} WrittenGrows(objs: seq<Object>, state: State, ask: Answers, k: nat, n: nat)
    requires k <= n <= |objs|
    ensures Written(objs, state, ask, k) <= Written(objs, state, ask, n)
  {
    if k < n {
      WrittenGrows(objs, state, ask, k, n - 1);
    }
  }

  lemma {:induction false} IfacesGrow(ifaces: seq<Iface>, j: nat, n: nat)
    requires j <= n <= |ifaces|
    ensures DeviceIfaces(ifaces, j) <= DeviceIfaces(ifaces, n)
  {
    if j < n {
      IfacesGrow(ifaces, j, n - 1);
    }
  }

  /** What is in the array once the object at `i` has been dealt with. */
  lemma AfterObject(objs: seq<Object>, state: State, ask: Answers, i: nat, list: seq<seq<Prop>>, inRange: bool)
    requires 2 <= i < |objs| && list <= Written(objs, state, ask, i) + Devices(objs[i], state, ask)
    requires var n := |Written(objs, state, ask, i)| + |Devices(objs[i], state, ask)|;
      (inRange <==> n <= Slots(objs)) && |list| == if inRange then n else Slots(objs)
    ensures inRange ==> list == Written(objs, state, ask, i + 1)
    ensures !inRange ==> list <= Written(objs, state, ask, |objs|) && Slots(objs) < |Written(objs, state, ask, |objs|)|
  {
    WrittenGrows(objs, state, ask, i + 1, |objs|);
  }

  /** The loops of `_get_devices`, up to the first write that would leave the array. There is
      one exactly if the device interfaces in the wanted state outnumber the slots. */
  method GetDevices(objs: seq<Object>, state: State, ask: Answers)
    returns (list: array<seq<Prop>>, count: nat, inRange: bool)
    ensures list.Length == (if |objs| < 2 then 0 else |objs| - 2) && count <= list.Length
    ensures inRange <==> |WantedPlaces(objs, state, ask, |objs|)| <= Slots(objs)
    ensures list[..count] <= Written(objs, state, ask, |objs|)
    ensures if inRange then list[..count] == Written(objs, state, ask, |objs|) else count == list.Length
  {
    WrittenCounted(objs, state, ask, |objs|);
    list := new seq<Prop>[Slots(objs)](_ => []);
    count, inRange := 0, true;
    if |objs| < 2 {
      return;
    }
    for i := 2 to |objs|
      invariant count <= list.Length && inRange && list[..count] == Written(objs, state, ask, i)
    {
      count, inRange := AddDevices(objs[i], state, ask, list, count);
      AfterObject(objs, state, ask, i, list[..count], inRange);
      if !inRange {
        return;
      }
    }
  }

  /** The inner loop, for one object. */
  method AddDevices(o: Object, state: State, ask: Answers, list: array<seq<Prop>>, start: nat)
    returns (count: nat, inRange: bool)
    requires start <= list.Length
    modifies list
    ensures inRange <==> start + |Devices(o, state, ask)| <= list.Length
    ensures start <= count <= list.Length
    ensures list[..count] <= old(list[..start]) + Devices(o, state, ask)
    ensures count == if inRange then start + |Devices(o, state, ask)| else list.Length
  {
    count, inRange := start, true;
    ghost var before := list[..start];
    for j := 0 to |o.ifaces|
      invariant inRange && start <= count <= list.Length
      invariant list[..count] == before + if Wanted(o.path, state, ask) then DeviceIfaces(o.ifaces, j) else []
    {
      if SameNoCase(o.ifaces[j].name, DEVICE1) && Wanted(o.path, state, ask) {
        IfacesGrow(o.ifaces, j + 1, |o.ifaces|);
        if count == list.Length {
          inRange := false;
          return;
        }
        list[count] := o.ifaces[j].props;
        count := count + 1;
      }
    }
  }

  // ---------------------------------------------------------------- what the list is

  ghost predicate HasDevice(o: Object) {
    exists j :: 0 <= j < |o.ifaces| && SameNoCase(o.ifaces[j].name, DEVICE1)
  }

  lemma {:induction false} DeviceIfacesEmptyIff(ifaces: seq<Iface>, j: nat)
    requires j <= |ifaces|
    ensures DeviceIfaces(ifaces, j) == [] <==> forall i :: 0 <= i < j ==> !SameNoCase(ifaces[i].name, DEVICE1)
  {
    if j > 0 {
      DeviceIfacesEmptyIff(ifaces, j - 1);
    }
  }

  /** A place to be listed: a device interface, up to case, of an object from the third one on
      whose path `keep` accepts. */
  predicate DevicePlace(objs: seq<Object>, keep: string -> bool, p: Place) {
    && 2 <= p.obj < |objs|
    && p.iface < |objs[p.obj].ifaces|
    && SameLetters(objs[p.obj].ifaces[p.iface].name, "org.bluez.Device1")
    && p.prop == 0
    && keep(objs[p.obj].path)
  }

  function PropsAt(objs: seq<Object>, p: Place): seq<Prop> {
    if p.obj < |objs| && p.iface < |objs[p.obj].ifaces| then objs[p.obj].ifaces[p.iface].props else []
  }

  ghost predicate Accepts(keep: string -> bool, state: State, ask: Answers) {
    forall path :: keep(path) <==> Wanted(path, state, ask)
  }

  lemma {:induction false} IfacePlaces(objs: seq<Object>, keep: string -> bool, list: seq<seq<Prop>>, at: seq<Place>,
      i: nat, j: nat) returns (at': seq<Place>)
    requires 2 <= i < |objs| && j <= |objs[i].ifaces| && keep(objs[i].path)
    requires UpTo(list, at, p => DevicePlace(objs, keep, p), p => PropsAt(objs, p), Place(i, 0, 0))
    ensures UpTo(list + DeviceIfaces(objs[i].ifaces, j), at', p => DevicePlace(objs, keep, p), p => PropsAt(objs, p),
                 Place(i, j, 0))
  {
    if j == 0 {
      at' := at;
      assert list + DeviceIfaces(objs[i].ifaces, 0) == list;
    } else {
      at' := IfacePlaces(objs, keep, list, at, i, j - 1);
      var so, here := list + DeviceIfaces(objs[i].ifaces, j - 1), Place(i, j - 1, 0);
      SameNoCaseMeans(objs[i].ifaces[j - 1].name, "org.bluez.Device1");
      if SameNoCase(objs[i].ifaces[j - 1].name, DEVICE1) {
        Take(so, at', p => DevicePlace(objs, keep, p), p => PropsAt(objs, p), here, Place(i, j - 1, 1));
        at' := at' + [here];
        so, here := so + [PropsAt(objs, here)], Place(i, j - 1, 1);
      }
      Skip(so, at', p => DevicePlace(objs, keep, p), p => PropsAt(objs, p), here, Place(i, j, 0));
      assert so == list + DeviceIfaces(objs[i].ifaces, j);
    }
  }

  lemma {:induction false} ObjectPlaces(objs: seq<Object>, state: State, ask: Answers, keep: string -> bool, k: nat)
      returns (at: seq<Place>)
    requires Accepts(keep, state, ask) && k <= |objs|
    ensures UpTo(Written(objs, state, ask, k), at, p => DevicePlace(objs, keep, p), p => PropsAt(objs, p), Place(k, 0, 0))
  {
    if k <= 2 {
      at := [];
    } else {
      at := ObjectPlaces(objs, state, ask, keep, k - 1);
      var so, end, o := Written(objs, state, ask, k - 1), Place(k - 1, 0, 0), objs[k - 1];
      if keep(o.path) {
        at := IfacePlaces(objs, keep, so, at, k - 1, |o.ifaces|);
        so, end := so + DeviceIfaces(o.ifaces, |o.ifaces|), Place(k - 1, |o.ifaces|, 0);
      }
      Skip(so, at, p => DevicePlace(objs, keep, p), p => PropsAt(objs, p), end, Place(k, 0, 0));
    }
  }

  lemma ListOf(objs: seq<Object>, state: State, ask: Answers, keep: string -> bool) returns (at: seq<Place>)
    requires Accepts(keep, state, ask)
    ensures IsListing(Written(objs, state, ask, |objs|), at, p => DevicePlace(objs, keep, p), p => PropsAt(objs, p))
  {
    at := ObjectPlaces(objs, state, ask, keep, |objs|);
  }

  /** What is listed: the properties of exactly the device interfaces, in order, of the objects from
      the third one on that are paired, are connected, or are there at all, as was asked for. */
  lemma DeviceListIsFilter(objs: seq<Object>, state: State, ask: Answers) returns (at: seq<Place>)
    ensures var list := Written(objs, state, ask, |objs|);
      match state
      case Paired => IsListing(list, at, p => DevicePlace(objs, ask.paired, p), p => PropsAt(objs, p))
      case Connected => IsListing(list, at, p => DevicePlace(objs, ask.connected, p), p => PropsAt(objs, p))
      case Any => IsListing(list, at, p => DevicePlace(objs, _ => true, p), p => PropsAt(objs, p))
  {
    match state
    case Paired => at := ListOf(objs, state, ask, ask.paired);
    case Connected => at := ListOf(objs, state, ask, ask.connected);
    case Any => at := ListOf(objs, state, ask, _ => true);
  }

  /** With one device interface at most per object, that is one item per object, in object order,
      and the array is large enough. */
  lemma OneItemEach(objs: seq<Object>, keep: string -> bool, list: seq<seq<Prop>>, at: seq<Place>)
    requires OneDeviceEach(objs)
    requires IsListing(list, at, p => DevicePlace(objs, keep, p), p => PropsAt(objs, p))
    ensures forall m, n :: 0 <= m < n < |at| ==> at[m].obj < at[n].obj
    ensures |list| <= if |objs| < 2 then 0 else |objs| - 2
  {
    forall m, n | 0 <= m < n < |at|
      ensures at[m].obj < at[n].obj
    {
      assert at[m] in at && at[n] in at && Before(at[m], at[n]);
      PlaceIsDevice(objs, keep, at[m]);
      PlaceIsDevice(objs, keep, at[n]);
    }
    if at != [] {
      AscendingObjects(at, |at| - 1);
      assert at[0] in at && at[|at| - 1] in at;
      PlaceIsDevice(objs, keep, at[0]);
      PlaceIsDevice(objs, keep, at[|at| - 1]);
    }
  }

  lemma PlaceIsDevice(objs: seq<Object>, keep: string -> bool, p: Place)
    requires DevicePlace(objs, keep, p)
    ensures DeviceAt(objs, p.obj, p.iface) && 2 <= p.obj < |objs| && p.prop == 0
  {
    SameNoCaseMeans(objs[p.obj].ifaces[p.iface].name, "org.bluez.Device1");
  }

  lemma {:induction false} AscendingObjects(at: seq<Place>, k: nat)
    requires k < |at| && forall m, n :: 0 <= m < n < |at| ==> at[m].obj < at[n].obj
    ensures at[k].obj >= at[0].obj + k
  {
    if k > 0 {
      AscendingObjects(at, k - 1);
      assert at[k - 1].obj < at[k].obj;
    }
  }
}
