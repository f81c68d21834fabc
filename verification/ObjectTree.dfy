/** Searches over the BlueZ object tree (src/modules/bluetooth/linux/core.c). The reply of
    GetManagedObjects is a sequence of objects, each a sequence of interfaces, each a sequence
    of properties, in the order in which the iterators deliver them. A call that fails leaves
    the searches as if there were no object. Property values are text. */
module ObjectTree {
  import opened ArtikTypes
  import opened Listings

  datatype Prop = Prop(key: string, value: string)

  datatype Iface = Iface(name: string, props: seq<Prop>)

  datatype Object = Object(path: string, ifaces: seq<Iface>)

  const DEVICE1 := "org.bluez.Device1"
  const GATTSERVICE1 := "org.bluez.GattService1"
  const GATTCHARACTERISTIC1 := "org.bluez.GattCharacteristic1"
  const GATTDESCRIPTOR1 := "org.bluez.GattDescriptor1"

  function Lower(c: char): char {
    if 'A' <= c <= 'Z' then c + 32 as char else c
  }

  /** `strcasecmp(a, b) == 0`. */
  predicate SameNoCase(a: string, b: string) {
    |a| == |b| && forall i :: 0 <= i < |a| ==> Lower(a[i]) == Lower(b[i])
  }

  /** The value that `_get_device_properties` leaves in `remote_address`: the last one wins. */
  function Address(props: seq<Prop>): Option<string> {
    if props == [] then None
    else if props[|props| - 1].key == "Address" then Some(props[|props| - 1].value)
    else Address(props[..|props| - 1])
  }

  /** Two characters that differ at most in case, in the C locale. */
  predicate SameLetter(c: char, d: char) {
    || c == d
    || ('A' <= c <= 'Z' && d as int == c as int + 32)
    || ('A' <= d <= 'Z' && c as int == d as int + 32)
  }

  predicate SameLetters(a: string, b: string) {
    |a| == |b| && forall i :: 0 <= i < |a| ==> SameLetter(a[i], b[i])
  }

  lemma SameNoCaseMeans(a: string, b: string)
    ensures SameNoCase(a, b) <==> SameLetters(a, b)
  {
    forall c: char, d: char
      ensures Lower(c) == Lower(d) <==> SameLetter(c, d)
    {
    }
  }

  /** Property `k` is the last one with the key. */
  ghost predicate LastWithKey(props: seq<Prop>, k: nat, key: string) {
    k < |props| && props[k].key == key && forall n :: k < n < |props| ==> props[n].key != key
  }

  /** The address of a device is the value of its last "Address" property, if it has one. */
  lemma {:induction false} AddressIsLast(props: seq<Prop>)
    ensures Address(props) == None <==> forall k :: 0 <= k < |props| ==> props[k].key != "Address"
    ensures forall k: nat :: LastWithKey(props, k, "Address") ==> Address(props) == Some(props[k].value)
    ensures Address(props).Some? ==> exists k: nat :: LastWithKey(props, k, "Address")
  {
    if props != [] {
      var n := |props| - 1;
      AddressIsLast(props[..n]);
      if props[n].key == "Address" {
        assert LastWithKey(props, n, "Address");
      } else {
        forall k: nat
          ensures LastWithKey(props, k, "Address") <==> LastWithKey(props[..n], k, "Address")
        {
        }
      }
    }
  }

  // ---------------------------------------------------------------- what is looked for

  /** A search: a device by its address, or an object under a path that carries an interface
      with a UUID and, if a property is named, with that property's value. */
  datatype Query =
    | Device(addr: string)
    | Gatt(under: string, iface: string, uuid: Option<string>, property: Option<string>, value: Option<string>)

  predicate DeviceIface(i: Iface, addr: string) {
    && SameNoCase(i.name, DEVICE1)
    && Address(i.props).Some?
    && SameNoCase(Address(i.props).value, addr)
  }

  predicate HasProp(props: seq<Prop>, key: string, value: Option<string>) {
    exists k :: 0 <= k < |props| && props[k].key == key && Some(props[k].value) == value
  }

  predicate GattIface(i: Iface, q: Query)
    requires q.Gatt?
  {
    && i.name == q.iface
    && HasProp(i.props, "UUID", q.uuid)
    && (q.property.Some? ==> HasProp(i.props, q.property.value, q.value))
  }

  predicate IfaceMatches(i: Iface, q: Query) {
    match q
    case Device(addr) => DeviceIface(i, addr)
    case Gatt(_, _, _, _, _) => GattIface(i, q)
  }

  predicate Matches(o: Object, q: Query) {
    && (q.Gatt? ==> q.under <= o.path)
    && exists j :: 0 <= j < |o.ifaces| && IfaceMatches(o.ifaces[j], q)
  }

  /** The first object from `k` on that matches, the number of objects if there is none. */
  function First(objs: seq<Object>, q: Query, k: nat): (r: nat)
    requires k <= |objs|
    ensures k <= r <= |objs|
    ensures forall i :: k <= i < r ==> !Matches(objs[i], q)
    ensures r < |objs| ==> Matches(objs[r], q)
    decreases |objs| - k
  {
    if k == |objs| || Matches(objs[k], q) then k else First(objs, q, k + 1)
  }

  function Find(objs: seq<Object>, q: Query): Option<string> {
    var k := First(objs, q, 0);
    if k < |objs| then Some(objs[k].path) else None
  }

  lemma FindIs(objs: seq<Object>, q: Query, k: nat)
    requires k <= |objs| && forall i :: 0 <= i < k ==> !Matches(objs[i], q)
    requires k < |objs| ==> Matches(objs[k], q)
    ensures First(objs, q, 0) == k
    ensures Find(objs, q) == if k < |objs| then Some(objs[k].path) else None
  {
  }

  /** A device, by places: an interface named like the device interface up to case, whose last
      "Address" property is the address up to case. */
  lemma DeviceMatches(o: Object, addr: string)
    ensures Matches(o, Device(addr)) <==>
      exists j: nat, k: nat :: j < |o.ifaces| && SameLetters(o.ifaces[j].name, "org.bluez.Device1") &&
        LastWithKey(o.ifaces[j].props, k, "Address") && SameLetters(o.ifaces[j].props[k].value, addr)
  {
    forall j: nat | j < |o.ifaces|
      ensures IfaceMatches(o.ifaces[j], Device(addr)) <==>
        SameLetters(o.ifaces[j].name, "org.bluez.Device1") &&
        exists k: nat :: LastWithKey(o.ifaces[j].props, k, "Address") && SameLetters(o.ifaces[j].props[k].value, addr)
    {
      DeviceIfaceMeans(o.ifaces[j], addr);
    }
    if Matches(o, Device(addr)) {
      var j: nat :| j < |o.ifaces| && IfaceMatches(o.ifaces[j], Device(addr));
      var k: nat :| LastWithKey(o.ifaces[j].props, k, "Address") && SameLetters(o.ifaces[j].props[k].value, addr);
    }
  }

  lemma DeviceIfaceMeans(i: Iface, addr: string)
    ensures DeviceIface(i, addr) <==>
      SameLetters(i.name, "org.bluez.Device1") &&
      exists k: nat :: LastWithKey(i.props, k, "Address") && SameLetters(i.props[k].value, addr)
  {
    SameNoCaseMeans(i.name, "org.bluez.Device1");
    AddressIsLast(i.props);
    if Address(i.props).Some? {
      SameNoCaseMeans(Address(i.props).value, addr);
    }
  }

  /** A GATT search, by places: the path begins with the one given, and one interface has the name,
      the UUID among its properties and, if a property is named, that property with its value. */
  lemma GattMatches(o: Object, under: string, iface: string, uuid: Option<string>, property: Option<string>,
      value: Option<string>)
    ensures Matches(o, Gatt(under, iface, uuid, property, value)) <==>
      && |under| <= |o.path| && o.path[..|under|] == under
      && exists j: nat, k: nat :: j < |o.ifaces| && o.ifaces[j].name == iface && k < |o.ifaces[j].props| &&
           o.ifaces[j].props[k].key == "UUID" && uuid == Some(o.ifaces[j].props[k].value) &&
           (property == None ||
            exists n: nat :: n < |o.ifaces[j].props| && property == Some(o.ifaces[j].props[n].key) &&
              value == Some(o.ifaces[j].props[n].value))
  {
    var q := Gatt(under, iface, uuid, property, value);
    if Matches(o, q) {
      var j :| 0 <= j < |o.ifaces| && IfaceMatches(o.ifaces[j], q);
      var props := o.ifaces[j].props;
      var k :| 0 <= k < |props| && props[k].key == "UUID" && Some(props[k].value) == uuid;
      if property.Some? {
        var n :| 0 <= n < |props| && props[n].key == property.value && Some(props[n].value) == value;
      }
    }
  }

  // ---------------------------------------------------------------- the loops

  /** `_get_object_path`: the outer loop notices a hit one object late. */
  method GetObjectPath(objs: seq<Object>, addr: string) returns (path: Option<string>)
    ensures path == Find(objs, Device(addr))
  {
    path := None;
    var i := 0;
    while i < |objs|
      invariant 0 <= i <= |objs|
      invariant path == None ==> forall k :: 0 <= k < i ==> !Matches(objs[k], Device(addr))
      invariant path.Some? ==> i > 0 && path.value == objs[i - 1].path && Matches(objs[i - 1], Device(addr))
      invariant path.Some? ==> forall k :: 0 <= k < i - 1 ==> !Matches(objs[k], Device(addr))
      decreases |objs| - i
    {
      if path != None {
        break;
      }
      var hit := FindDeviceIface(objs[i].ifaces, addr);
      if hit {
        path := Some(objs[i].path);
      }
      i := i + 1;
    }
    FindIs(objs, Device(addr), if path.Some? then i - 1 else |objs|);
  }

  /** The inner loop of `_get_object_path`. */
  method FindDeviceIface(ifaces: seq<Iface>, addr: string) returns (hit: bool)
    ensures hit <==> exists j :: 0 <= j < |ifaces| && IfaceMatches(ifaces[j], Device(addr))
  {
    hit := false;
    for j := 0 to |ifaces|
      invariant forall k :: 0 <= k < j ==> !IfaceMatches(ifaces[k], Device(addr))
      invariant !hit
    {
      if !SameNoCase(ifaces[j].name, DEVICE1) {
        continue;
      }
      var address := DeviceAddress(ifaces[j].props);
      if address.Some? && SameNoCase(address.value, addr) {
        assert IfaceMatches(ifaces[j], Device(addr));
        hit := true;
        break;
      }
    }
  }

  /** `_get_device_properties`, for the address field. */
  method DeviceAddress(props: seq<Prop>) returns (address: Option<string>)
    ensures address == Address(props)
  {
    address := None;
    for i := 0 to |props|
      invariant address == Address(props[..i])
    {
      assert props[..i + 1][..i] == props[..i];
      if props[i].key == "Address" {
        address := Some(props[i].value);
      }
    }
    assert props[..|props|] == props;
  }

  /** The innermost loop of `_get_gatt_path`: two flags, and an exit once both are up. */
  method ScanProps(props: seq<Prop>, q: Query) returns (hit: bool)
    requires q.Gatt?
    ensures hit <==> HasProp(props, "UUID", q.uuid) && (q.property.Some? ==> HasProp(props, q.property.value, q.value))
  {
    var goodUuid, goodProperty := false, q.property == None;
    hit := false;
    for k := 0 to |props|
      invariant !hit && !(goodUuid && goodProperty)
      invariant goodUuid <==> HasProp(props[..k], "UUID", q.uuid)
      invariant goodProperty <==> (q.property.Some? ==> HasProp(props[..k], q.property.value, q.value))
    {
      HasPropSnoc(props, k, "UUID", q.uuid);
      if q.property.Some? {
        HasPropSnoc(props, k, q.property.value, q.value);
      }
      if props[k].key == "UUID" && q.uuid == Some(props[k].value) {
        goodUuid := true;
      }
      if q.property == Some(props[k].key) && q.value == Some(props[k].value) {
        goodProperty := true;
      }
      if goodProperty && goodUuid {
        hit := true;
        HasPropMore(props, k + 1, "UUID", q.uuid);
        if q.property.Some? {
          HasPropMore(props, k + 1, q.property.value, q.value);
        }
        break;
      }
    }
    assert props[..|props|] == props;
  }

  lemma HasPropSnoc(props: seq<Prop>, k: nat, key: string, value: Option<string>)
    requires k < |props|
    ensures HasProp(props[..k + 1], key, value) <==>
            HasProp(props[..k], key, value) || (props[k].key == key && Some(props[k].value) == value)
  {
    var shorter, longer := props[..k], props[..k + 1];
    if HasProp(shorter, key, value) {
      var i :| 0 <= i < |shorter| && shorter[i].key == key && Some(shorter[i].value) == value;
      assert longer[i] == shorter[i];
    }
    assert longer[k] == props[k];
    if HasProp(longer, key, value) {
      var i :| 0 <= i < |longer| && longer[i].key == key && Some(longer[i].value) == value;
      assert i < k ==> shorter[i] == longer[i];
    }
  }

  lemma HasPropMore(props: seq<Prop>, k: nat, key: string, value: Option<string>)
    requires k <= |props| && HasProp(props[..k], key, value)
    ensures HasProp(props, key, value)
  {
    var i :| 0 <= i < k && props[..k][i].key == key && Some(props[..k][i].value) == value;
    assert props[i] == props[..k][i];
  }

  /** The middle loop: stops at the interface after the one that matched. */
  method ScanIfaces(ifaces: seq<Iface>, q: Query) returns (hit: bool)
    requires q.Gatt?
    ensures hit <==> exists j :: 0 <= j < |ifaces| && IfaceMatches(ifaces[j], q)
  {
    hit := false;
    for j := 0 to |ifaces|
      invariant hit <==> exists i :: 0 <= i < j && IfaceMatches(ifaces[i], q)
    {
      if hit {
        break;
      }
      if ifaces[j].name != q.iface {
        continue;
      }
      hit := ScanProps(ifaces[j].props, q);
      assert hit <==> IfaceMatches(ifaces[j], q);
    }
  }

  /** `_get_gatt_path`: the first object under the device that carries what is asked for. */
  method GetGattPath(objs: seq<Object>, addr: string, iface: string, uuid: Option<string>,
      property: Option<string>, value: Option<string>) returns (path: Option<string>)
    ensures path == GattPath(objs, addr, iface, uuid, property, value)
  {
    path := None;
    var dev := GetObjectPath(objs, addr);
    if dev == None {
      return;
    }
    var q := Gatt(dev.value, iface, uuid, property, value);
    var i := 0;
    while i < |objs|
      invariant 0 <= i <= |objs|
      invariant path == None ==> forall k :: 0 <= k < i ==> !Matches(objs[k], q)
      invariant path.Some? ==> i > 0 && path.value == objs[i - 1].path && Matches(objs[i - 1], q)
      invariant path.Some? ==> forall k :: 0 <= k < i - 1 ==> !Matches(objs[k], q)
      decreases |objs| - i
    {
      if path != None {
        break;
      }
      if dev.value <= objs[i].path {
        var hit := ScanIfaces(objs[i].ifaces, q);
        if hit {
          path := Some(objs[i].path);
        }
      }
      i := i + 1;
    }
    FindIs(objs, q, if path.Some? then i - 1 else |objs|);
  }

  /** What `_get_gatt_path` finds: nothing without the device, else the first match under it. */
  function GattPath(objs: seq<Object>, addr: string, iface: string, uuid: Option<string>,
      property: Option<string>, value: Option<string>): Option<string> {
    match Find(objs, Device(addr))
    case None => None
    case Some(dev) => Find(objs, Gatt(dev, iface, uuid, property, value))
  }

  /** Both directions of the three-level search: a result is the path of an object under the
      device's path with the interface, UUID and property asked for, and of no later one than
      the first; there is no result exactly when there is no device or no such object. */
  lemma GattPathIsFirstMatch(objs: seq<Object>, addr: string, iface: string, uuid: Option<string>,
      property: Option<string>, value: Option<string>)
    ensures GattPath(objs, addr, iface, uuid, property, value).Some? ==>
      && Find(objs, Device(addr)).Some?
      && var q := Gatt(Find(objs, Device(addr)).value, iface, uuid, property, value);
         exists k: nat :: IsFirst(objs, q, k) && GattPath(objs, addr, iface, uuid, property, value).value == objs[k].path
    ensures GattPath(objs, addr, iface, uuid, property, value) == None <==>
      || Find(objs, Device(addr)) == None
      || (var q := Gatt(Find(objs, Device(addr)).value, iface, uuid, property, value);
          forall k :: 0 <= k < |objs| ==> !Matches(objs[k], q))
  {
    var dev := Find(objs, Device(addr));
    if dev.Some? {
      var q := Gatt(dev.value, iface, uuid, property, value);
      var k := First(objs, q, 0);
      assert k < |objs| ==> IsFirst(objs, q, k);
    }
  }

  ghost predicate IsFirst(objs: seq<Object>, q: Query, k: nat) {
    && k < |objs|
    && Matches(objs[k], q)
    && forall i :: 0 <= i < k ==> !Matches(objs[i], q)
  }

  // ---------------------------------------------------------------- UUID lists

  function UuidProps(props: seq<Prop>): seq<string> {
    if props == [] then []
    else UuidProps(props[..|props| - 1]) +
         if props[|props| - 1].key == "UUID" then [props[|props| - 1].value] else []
  }

  /** The UUIDs that the interfaces of this name carry. */
  function Uuids(ifaces: seq<Iface>, name: string): seq<string> {
    if ifaces == [] then []
    else Uuids(ifaces[..|ifaces| - 1], name) +
         if ifaces[|ifaces| - 1].name == name then UuidProps(ifaces[|ifaces| - 1].props) else []
  }

  function UuidsUnder(objs: seq<Object>, under: string, name: string): seq<string> {
    if objs == [] then []
    else UuidsUnder(objs[..|objs| - 1], under, name) +
         if under <= objs[|objs| - 1].path then Uuids(objs[|objs| - 1].ifaces, name) else []
  }

  /** A place that holds a UUID to be listed. */
  predicate UuidPlace(objs: seq<Object>, under: string, name: string, p: Place) {
    && p.obj < |objs|
    && |under| <= |objs[p.obj].path| && objs[p.obj].path[..|under|] == under
    && p.iface < |objs[p.obj].ifaces|
    && objs[p.obj].ifaces[p.iface].name == name
    && p.prop < |objs[p.obj].ifaces[p.iface].props|
    && objs[p.obj].ifaces[p.iface].props[p.prop].key == "UUID"
  }

  function ValueAt(objs: seq<Object>, p: Place): string {
    if p.obj < |objs| && p.iface < |objs[p.obj].ifaces| && p.prop < |objs[p.obj].ifaces[p.iface].props|
    then objs[p.obj].ifaces[p.iface].props[p.prop].value else ""
  }

  /** What the listing has after `m` properties of one interface, on top of `list`. */
  lemma {:induction false} PropPlaces(objs: seq<Object>, under: string, name: string, list: seq<string>, at: seq<Place>,
      i: nat, j: nat, m: nat) returns (at': seq<Place>)
    requires i < |objs| && j < |objs[i].ifaces| && m <= |objs[i].ifaces[j].props|
    requires under <= objs[i].path && objs[i].ifaces[j].name == name
    requires UpTo(list, at, p => UuidPlace(objs, under, name, p), p => ValueAt(objs, p), Place(i, j, 0))
    ensures UpTo(list + UuidProps(objs[i].ifaces[j].props[..m]), at', p => UuidPlace(objs, under, name, p),
                 p => ValueAt(objs, p), Place(i, j, m))
  {
    var props := objs[i].ifaces[j].props;
    if m == 0 {
      at' := at;
      assert list + UuidProps(props[..0]) == list;
    } else {
      at' := PropPlaces(objs, under, name, list, at, i, j, m - 1);
      assert props[..m][..m - 1] == props[..m - 1];
      var so, here := list + UuidProps(props[..m - 1]), Place(i, j, m - 1);
      if props[m - 1].key == "UUID" {
        Take(so, at', p => UuidPlace(objs, under, name, p), p => ValueAt(objs, p), here, Place(i, j, m));
        at' := at' + [here];
        assert so + [ValueAt(objs, here)] == list + UuidProps(props[..m]);
      } else {
        Skip(so, at', p => UuidPlace(objs, under, name, p), p => ValueAt(objs, p), here, Place(i, j, m));
        assert so == list + UuidProps(props[..m]);
      }
    }
  }

  lemma {:induction false} IfacePlaces(objs: seq<Object>, under: string, name: string, list: seq<string>, at: seq<Place>,
      i: nat, j: nat) returns (at': seq<Place>)
    requires i < |objs| && j <= |objs[i].ifaces| && under <= objs[i].path
    requires UpTo(list, at, p => UuidPlace(objs, under, name, p), p => ValueAt(objs, p), Place(i, 0, 0))
    ensures UpTo(list + Uuids(objs[i].ifaces[..j], name), at', p => UuidPlace(objs, under, name, p),
                 p => ValueAt(objs, p), Place(i, j, 0))
  {
    var ifaces := objs[i].ifaces;
    if j == 0 {
      at' := at;
      assert list + Uuids(ifaces[..0], name) == list;
    } else {
      at' := IfacePlaces(objs, under, name, list, at, i, j - 1);
      assert ifaces[..j][..j - 1] == ifaces[..j - 1];
      var so, end := list + Uuids(ifaces[..j - 1], name), Place(i, j - 1, 0);
      if ifaces[j - 1].name == name {
        var props := ifaces[j - 1].props;
        at' := PropPlaces(objs, under, name, so, at', i, j - 1, |props|);
        assert props[..|props|] == props;
        so, end := so + UuidProps(props), Place(i, j - 1, |props|);
      }
      Skip(so, at', p => UuidPlace(objs, under, name, p), p => ValueAt(objs, p), end, Place(i, j, 0));
      assert so == list + Uuids(ifaces[..j], name);
    }
  }

  lemma {:induction false} ObjectPlaces(objs: seq<Object>, under: string, name: string, i: nat) returns (at: seq<Place>)
    requires i <= |objs|
    ensures UpTo(UuidsUnder(objs[..i], under, name), at, p => UuidPlace(objs, under, name, p), p => ValueAt(objs, p),
                 Place(i, 0, 0))
  {
    if i == 0 {
      at := [];
    } else {
      at := ObjectPlaces(objs, under, name, i - 1);
      assert objs[..i][..i - 1] == objs[..i - 1];
      var so, end, ifaces := UuidsUnder(objs[..i - 1], under, name), Place(i - 1, 0, 0), objs[i - 1].ifaces;
      if under <= objs[i - 1].path {
        at := IfacePlaces(objs, under, name, so, at, i - 1, |ifaces|);
        assert ifaces[..|ifaces|] == ifaces;
        so, end := so + Uuids(ifaces, name), Place(i - 1, |ifaces|, 0);
      }
      Skip(so, at, p => UuidPlace(objs, under, name, p), p => ValueAt(objs, p), end, Place(i, 0, 0));
    }
  }

  /** What `_get_gatt_uuid_list` lists: the values at exactly the places whose path begins with the
      one given, whose interface has the name and whose key is "UUID", in order. */
  lemma UuidListIsListing(objs: seq<Object>, under: string, name: string) returns (at: seq<Place>)
    ensures IsListing(UuidsUnder(objs, under, name), at, p => UuidPlace(objs, under, name, p), p => ValueAt(objs, p))
  {
    at := ObjectPlaces(objs, under, name, |objs|);
    assert objs[..|objs|] == objs;
  }

  /** `_get_gatt_uuid_list`. */
  method GetGattUuidList(objs: seq<Object>, gattPath: string, name: string) returns (uuids: seq<string>)
    ensures uuids == UuidsUnder(objs, gattPath, name)
  {
    uuids := [];
    for i := 0 to |objs|
      invariant uuids == UuidsUnder(objs[..i], gattPath, name)
    {
      assert objs[..i + 1][..i] == objs[..i];
      if !(gattPath <= objs[i].path) {
        continue;
      }
      uuids := AppendUuids(uuids, objs[i].ifaces, name);
    }
    assert objs[..|objs|] == objs;
  }

  /** The two inner loops of `_get_gatt_uuid_list`, appending to the list. */
  method AppendUuids(list: seq<string>, ifaces: seq<Iface>, name: string) returns (uuids: seq<string>)
    ensures uuids == list + Uuids(ifaces, name)
  {
    uuids := list;
    for j := 0 to |ifaces|
      invariant uuids == list + Uuids(ifaces[..j], name)
    {
      assert ifaces[..j + 1][..j] == ifaces[..j];
      if ifaces[j].name != name {
        continue;
      }
      var props := ifaces[j].props;
      ghost var before := uuids;
      for k := 0 to |props|
        invariant uuids == before + UuidProps(props[..k])
      {
        assert props[..k + 1][..k] == props[..k];
        if props[k].key == "UUID" {
          uuids := uuids + [props[k].value];
        }
      }
      assert props[..|props|] == props;
    }
    assert ifaces[..|ifaces|] == ifaces;
  }
}
