/** The GATT listings of src/modules/bluetooth/linux/gatt.c, composed from the searches, and
    what comparing paths as strings means in the object tree. */
module Gatt {
  import opened ArtikTypes
  import opened ObjectTree

  datatype Listing = Failed(error: Error) | Listed(uuids: seq<string>)

  // ---------------------------------------------------------------- the listings

  /** `bt_gatt_get_service_list`. */
  method GetServiceList(objs: seq<Object>, addr: string) returns (r: Listing)
    ensures r == match Find(objs, Device(addr))
                 case None => Failed(E_BT_ERROR)
                 case Some(dev) => Listed(UuidsUnder(objs, dev, "org.bluez.GattService1"))
  {
    var dev := GetObjectPath(objs, addr);
    if dev == None {
      return Failed(E_BT_ERROR);
    }
    var uuids := GetGattUuidList(objs, dev.value, GATTSERVICE1);
    return Listed(uuids);
  }

  /** `bt_gatt_get_chracteristic_list`. */
  method GetCharacteristicList(objs: seq<Object>, addr: string, srv: Option<string>) returns (r: Listing)
    ensures r == match GattPath(objs, addr, "org.bluez.GattService1", srv, None, None)
                 case None => Failed(E_BT_ERROR)
                 case Some(path) => Listed(UuidsUnder(objs, path, "org.bluez.GattCharacteristic1"))
  {
    var path := GetGattPath(objs, addr, GATTSERVICE1, srv, None, None);
    if path == None {
      return Failed(E_BT_ERROR);
    }
    var uuids := GetGattUuidList(objs, path.value, GATTCHARACTERISTIC1);
    return Listed(uuids);
  }

  /** The characteristic that a descriptor listing settles on: the first one under the device
      with its UUID whose "Service" property is the path of the first service with the other. */
  function Characteristic(objs: seq<Object>, addr: string, srv: Option<string>, chr: Option<string>): Option<string> {
    match GattPath(objs, addr, GATTSERVICE1, srv, None, None)
    case None => None
    case Some(path) => GattPath(objs, addr, GATTCHARACTERISTIC1, chr, Some("Service"), Some(path))
  }

  /** `bt_gatt_get_descriptor_list`. */
  method GetDescriptorList(objs: seq<Object>, addr: string, srv: Option<string>, chr: Option<string>)
      returns (r: Listing)
    ensures r == match Characteristic(objs, addr, srv, chr)
                 case None => Failed(E_BT_ERROR)
                 case Some(path) => Listed(UuidsUnder(objs, path, "org.bluez.GattDescriptor1"))
  {
    var service := GetGattPath(objs, addr, GATTSERVICE1, srv, None, None);
    if service == None {
      return Failed(E_BT_ERROR);
    }
    var path := GetGattPath(objs, addr, GATTCHARACTERISTIC1, chr, Some("Service"), service);
    if path == None {
      return Failed(E_BT_ERROR);
    }
    var uuids := GetGattUuidList(objs, path.value, GATTDESCRIPTOR1);
    return Listed(uuids);
  }

  // ---------------------------------------------------------------- paths as components

  predicate NoSlash(s: string) {
    forall i :: 0 <= i < |s| ==> s[i] != '/'
  }

  ghost predicate Components(cs: seq<string>) {
    forall i :: 0 <= i < |cs| ==> NoSlash(cs[i])
  }

  /** An object path: a slash before every component. */
  function Render(cs: seq<string>): string {
    if cs == [] then "" else "/" + (cs[0] + Render(cs[1..]))
  }

  lemma RenderStart(cs: seq<string>)
    requires cs != []
    ensures Render(cs) != "" && Render(cs)[0] == '/'
  {
  }

  /** A string of components begins another exactly when the first component does, being the
      whole of it if more follows, and what follows begins what follows. */
  lemma SplitPrefix(a: string, b: string, x: string, y: string)
    requires NoSlash(a) && NoSlash(b)
    requires (x != "" ==> x[0] == '/') && (y != "" ==> y[0] == '/')
    ensures a + x <= b + y <==> if x == "" then a <= b else a == b && x <= y
  {
    var s, t := a + x, b + y;
    assert forall i :: 0 <= i < |a| ==> s[i] == a[i];
    assert forall i :: 0 <= i < |b| ==> t[i] == b[i];
    assert x != "" ==> s[|a|] == '/';
    assert y != "" ==> t[|b|] == '/';
    if s <= t {
      assert forall i :: 0 <= i < |s| ==> s[i] == t[i];
      assert |a| <= |b|;
      assert x != "" ==> |a| == |b|;
      assert forall i :: 0 <= i < |x| ==> x[i] == s[|a| + i];
    }
  }

  /** The string test, exactly: the same components up to the last of `p`, and that last one
      beginning its counterpart, whole or not. */
  ghost predicate StringUnder(p: seq<string>, q: seq<string>) {
    || p == []
    || (|p| <= |q| && p[..|p| - 1] == q[..|p| - 1] && p[|p| - 1] <= q[|p| - 1])
  }

  lemma {:induction false} PrefixMeans(p: seq<string>, q: seq<string>)
    requires Components(p) && Components(q)
    ensures Render(p) <= Render(q) <==> StringUnder(p, q)
  {
    if p == [] {
    } else if q == [] {
      RenderStart(p);
    } else {
      var ps, qs := p[1..], q[1..];
      PrefixMeans(ps, qs);
      PrefixStep(p, q);
    }
  }

  lemma PrefixStep(p: seq<string>, q: seq<string>)
    requires p != [] && q != [] && Components(p) && Components(q)
    requires Render(p[1..]) <= Render(q[1..]) <==> StringUnder(p[1..], q[1..])
    ensures Render(p) <= Render(q) <==> StringUnder(p, q)
  {
    RenderCons(p, q);
    if |p| == 1 {
      assert p[..|p| - 1] == [] == q[..|p| - 1];
    } else {
      StringUnderCons(p, q);
    }
  }

  lemma SlashFirst(p: seq<string>)
    requires p != []
    ensures Render(p) == "/" + (p[0] + Render(p[1..]))
    ensures Render(p[1..]) == "" <==> |p| == 1
    ensures |p| > 1 ==> Render(p[1..])[0] == '/'
  {
    if |p| > 1 {
      RenderStart(p[1..]);
    }
  }

  lemma RenderCons(p: seq<string>, q: seq<string>)
    requires p != [] && q != [] && NoSlash(p[0]) && NoSlash(q[0])
    ensures Render(p) <= Render(q) <==>
            if |p| == 1 then p[0] <= q[0] else p[0] == q[0] && Render(p[1..]) <= Render(q[1..])
  {
    var x, y := Render(p[1..]), Render(q[1..]);
    SlashFirst(p);
    SlashFirst(q);
    Cons("/", p[0] + x, q[0] + y);
    SplitPrefix(p[0], q[0], x, y);
  }

  lemma Cons(c: string, s: string, t: string)
    ensures c + s <= c + t <==> s <= t
  {
    if c + s <= c + t {
      assert forall i :: 0 <= i < |s| ==> s[i] == (c + s)[|c| + i] == (c + t)[|c| + i] == t[i];
    }
  }

  lemma StringUnderCons(p: seq<string>, q: seq<string>)
    requires |p| >= 2 && q != []
    ensures StringUnder(p, q) <==> p[0] == q[0] && StringUnder(p[1..], q[1..])
  {
    var ps, qs, n := p[1..], q[1..], |p| - 1;
    assert ps[|ps| - 1] == p[n];
    if |p| <= |q| {
      assert qs[|ps| - 1] == q[n];
      assert p[..n] == [p[0]] + ps[..n - 1] && q[..n] == [q[0]] + qs[..n - 1];
      if p[..n] == q[..n] {
        assert p[..n][1..] == ps[..n - 1] && q[..n][1..] == qs[..n - 1];
        assert p[0] == p[..n][0] == q[..n][0] == q[0];
      }
    }
  }

  // ---------------------------------------------------------------- what a listing collects

  /** The objects of a snapshot with their paths taken apart. */
  ghost predicate Tree(objs: seq<Object>, at: seq<seq<string>>) {
    && |at| == |objs|
    && forall i :: 0 <= i < |objs| ==> Components(at[i]) && objs[i].path == Render(at[i])
  }

  /** The UUIDs of the objects at or below `p` in the tree, in object order. */
  ghost function UuidsBelow(objs: seq<Object>, at: seq<seq<string>>, p: seq<string>, name: string): seq<string>
    requires |at| == |objs|
  {
    if objs == [] then []
    else
      var n := |objs| - 1;
      UuidsBelow(objs[..n], at[..n], p, name) + if p <= at[n] then Uuids(objs[n].ifaces, name) else []
  }

  /** An object that the string test takes for one below `p` although it is not, and that
      carries something to list. */
  ghost predicate Stray(o: Object, q: seq<string>, p: seq<string>, name: string) {
    StringUnder(p, q) && !(p <= q) && Uuids(o.ifaces, name) != []
  }

  lemma BelowIsStringUnder(p: seq<string>, q: seq<string>)
    requires p <= q
    ensures StringUnder(p, q)
  {
  }

  ghost predicate NoStrays(objs: seq<Object>, at: seq<seq<string>>, p: seq<string>, name: string)
    requires |at| == |objs|
  {
    forall i :: 0 <= i < |objs| ==> !Stray(objs[i], at[i], p, name)
  }

  lemma NoStraysSnoc(objs: seq<Object>, at: seq<seq<string>>, p: seq<string>, name: string)
    requires |at| == |objs| > 0
    ensures var n := |objs| - 1;
      NoStrays(objs, at, p, name) <==> NoStrays(objs[..n], at[..n], p, name) && !Stray(objs[n], at[n], p, name)
  {
    var n := |objs| - 1;
    assert forall i :: 0 <= i < n ==> objs[..n][i] == objs[i] && at[..n][i] == at[i];
    if NoStrays(objs[..n], at[..n], p, name) && !Stray(objs[n], at[n], p, name) {
      forall i | 0 <= i < |objs|
        ensures !Stray(objs[i], at[i], p, name)
      {
        if i < n {
          assert !Stray(objs[..n][i], at[..n][i], p, name);
        }
      }
    }
  }

  lemma {:induction false} ListingCounts(objs: seq<Object>, at: seq<seq<string>>, p: seq<string>, name: string)
    requires Tree(objs, at) && Components(p)
    ensures var all, below := UuidsUnder(objs, Render(p), name), UuidsBelow(objs, at, p, name);
      && |below| <= |all|
      && (all == below <==> |all| == |below|)
      && (all == below <==> NoStrays(objs, at, p, name))
  {
    if objs != [] {
      var n := |objs| - 1;
      ListingCounts(objs[..n], at[..n], p, name);
      PrefixMeans(p, at[n]);
      if p <= at[n] {
        BelowIsStringUnder(p, at[n]);
      }
      AppendBoth(UuidsUnder(objs[..n], Render(p), name), UuidsBelow(objs[..n], at[..n], p, name),
        Uuids(objs[n].ifaces, name), StringUnder(p, at[n]), p <= at[n]);
      NoStraysSnoc(objs, at, p, name);
    }
  }

  lemma AppendBoth(all: seq<string>, below: seq<string>, tail: seq<string>, toAll: bool, toBelow: bool)
    requires |below| <= |all| && (all == below <==> |all| == |below|) && (toBelow ==> toAll)
    ensures var all', below' := all + (if toAll then tail else []), below + if toBelow then tail else [];
      && |below'| <= |all'|
      && (all' == below' <==> |all'| == |below'|)
      && (all' == below' <==> all == below && !(toAll && !toBelow && tail != []))
  {
  }

  /** Two paths whose components are of equal length wherever they are siblings. */
  ghost predicate Aligned(p: seq<string>, q: seq<string>) {
    forall k :: 0 <= k < |p| && k < |q| && p[..k] == q[..k] ==> |p[k]| == |q[k]|
  }

  lemma AlignedHasNoStrays(o: Object, q: seq<string>, p: seq<string>, name: string)
    requires Aligned(p, q)
    ensures !Stray(o, q, p, name)
  {
    if StringUnder(p, q) && p != [] {
      var n := |p| - 1;
      assert p[..n] == q[..n] && |p[n]| == |q[n]|;
      assert p[n] == q[n];
      assert forall i :: 0 <= i < n ==> p[i] == p[..n][i] == q[..n][i] == q[i];
    }
  }

  /** A listing under the object at `k`, for every snapshot and every interface: it is the UUIDs
      at or below that object, in object order, if and only if no stray sibling carries the
      interface; equal lengths of sibling components rule strays out. */
  lemma ListingBelongsIff(objs: seq<Object>, at: seq<seq<string>>, k: nat, name: string)
    requires Tree(objs, at) && k < |objs|
    ensures UuidsUnder(objs, objs[k].path, name) == UuidsBelow(objs, at, at[k], name) <==>
            NoStrays(objs, at, at[k], name)
    ensures (forall i :: 0 <= i < |objs| ==> Aligned(at[k], at[i])) ==>
            UuidsUnder(objs, objs[k].path, name) == UuidsBelow(objs, at, at[k], name)
  {
    ListingCounts(objs, at, at[k], name);
    if forall i :: 0 <= i < |objs| ==> Aligned(at[k], at[i]) {
      forall i | 0 <= i < |objs|
        ensures !Stray(objs[i], at[i], at[k], name)
      {
        AlignedHasNoStrays(objs[i], at[i], at[k], name);
      }
    }
  }

  /** The service listing, from the address on: the services at or below the device's object if
      and only if no stray sibling of the device carries a service. */
  lemma ServicesBelongIff(objs: seq<Object>, at: seq<seq<string>>, addr: string) returns (k: nat)
    requires Tree(objs, at) && Find(objs, Device(addr)).Some?
    ensures k < |objs| && Find(objs, Device(addr)) == Some(objs[k].path) && IsFirst(objs, Device(addr), k)
    ensures UuidsUnder(objs, objs[k].path, GATTSERVICE1) == UuidsBelow(objs, at, at[k], GATTSERVICE1) <==>
            NoStrays(objs, at, at[k], GATTSERVICE1)
  {
    k := First(objs, Device(addr), 0);
    ListingBelongsIff(objs, at, k, GATTSERVICE1);
  }

  /** The characteristic listing, from the address and the service's UUID on. */
  lemma CharacteristicsBelongIff(objs: seq<Object>, at: seq<seq<string>>, addr: string, srv: Option<string>)
      returns (k: nat)
    requires Tree(objs, at) && GattPath(objs, addr, GATTSERVICE1, srv, None, None).Some?
    ensures k < |objs| && GattPath(objs, addr, GATTSERVICE1, srv, None, None) == Some(objs[k].path)
    ensures Find(objs, Device(addr)).Some?
    ensures IsFirst(objs, Query.Gatt(Find(objs, Device(addr)).value, GATTSERVICE1, srv, None, None), k)
    ensures UuidsUnder(objs, objs[k].path, GATTCHARACTERISTIC1) == UuidsBelow(objs, at, at[k], GATTCHARACTERISTIC1) <==>
            NoStrays(objs, at, at[k], GATTCHARACTERISTIC1)
  {
    k := First(objs, Query.Gatt(Find(objs, Device(addr)).value, GATTSERVICE1, srv, None, None), 0);
    ListingBelongsIff(objs, at, k, GATTCHARACTERISTIC1);
  }

  /** What a descriptor listing settles on is an object of the snapshot that carries the
      characteristic asked for, with the chosen service's path as its "Service" property. */
  lemma CharacteristicIsChosen(objs: seq<Object>, addr: string, srv: Option<string>, chr: Option<string>)
      returns (s: nat, k: nat)
    requires Characteristic(objs, addr, srv, chr).Some?
    ensures s < |objs| && k < |objs| && Characteristic(objs, addr, srv, chr) == Some(objs[k].path)
    ensures Find(objs, Device(addr)).Some?
    ensures var dev := Find(objs, Device(addr)).value;
      && IsFirst(objs, Query.Gatt(dev, "org.bluez.GattService1", srv, None, None), s)
      && IsFirst(objs, Query.Gatt(dev, "org.bluez.GattCharacteristic1", chr, Some("Service"), Some(objs[s].path)), k)
  {
    var dev := Find(objs, Device(addr)).value;
    s := First(objs, Query.Gatt(dev, GATTSERVICE1, srv, None, None), 0);
    k := First(objs, Query.Gatt(dev, GATTCHARACTERISTIC1, chr, Some("Service"), Some(objs[s].path)), 0);
  }

  /** The descriptor listing, from the address and the two UUIDs on: the descriptors of the chosen
      characteristic if and only if no stray sibling of it carries one, and so in every tree whose
      sibling components have equal length. */
  lemma DescriptorsBelongIff(objs: seq<Object>, at: seq<seq<string>>, addr: string, srv: Option<string>,
      chr: Option<string>) returns (k: nat)
    requires Tree(objs, at) && Characteristic(objs, addr, srv, chr).Some?
    ensures k < |objs| && Characteristic(objs, addr, srv, chr) == Some(objs[k].path)
    ensures UuidsUnder(objs, objs[k].path, GATTDESCRIPTOR1) == UuidsBelow(objs, at, at[k], GATTDESCRIPTOR1) <==>
            NoStrays(objs, at, at[k], GATTDESCRIPTOR1)
    ensures (forall i, j :: 0 <= i < |objs| && 0 <= j < |objs| ==> Aligned(at[i], at[j])) ==>
            UuidsUnder(objs, objs[k].path, GATTDESCRIPTOR1) == UuidsBelow(objs, at, at[k], GATTDESCRIPTOR1)
  {
    var s;
    s, k := CharacteristicIsChosen(objs, addr, srv, chr);
    ListingBelongsIff(objs, at, k, GATTDESCRIPTOR1);
  }

  // ---------------------------------------------------------------- a listing that takes too much

  /** A device with one service, whose characteristics are "char1" and "char10". Only the second
      one has a descriptor. */
  const SAMPLE_PATHS: seq<seq<string>> :=
    [["d"], ["d", "s"], ["d", "s", "char1"], ["d", "s", "char10"], ["d", "s", "char10", "desc1"]]

  function SampleIface(i: nat, addr: string, srv: string, chr: string, chr10: string, desc: string): Iface {
    match i
    case 0 => Iface(DEVICE1, [Prop("Address", addr)])
    case 1 => Iface(GATTSERVICE1, [Prop("UUID", srv)])
    case 2 => Iface(GATTCHARACTERISTIC1, [Prop("UUID", chr), Prop("Service", Render(SAMPLE_PATHS[1]))])
    case 3 => Iface(GATTCHARACTERISTIC1, [Prop("UUID", chr10), Prop("Service", Render(SAMPLE_PATHS[1]))])
    case _ => Iface(GATTDESCRIPTOR1, [Prop("UUID", desc)])
  }

  function Sample(addr: string, srv: string, chr: string, chr10: string, desc: string): (objs: seq<Object>)
    ensures |objs| == 5
  {
    seq(5, i requires 0 <= i < 5 =>
      Object(Render(SAMPLE_PATHS[i]), [SampleIface(i, addr, srv, chr, chr10, desc)]))
  }

  lemma SampleIsTree(objs: seq<Object>)
    requires |objs| == 5 && forall i :: 0 <= i < 5 ==> objs[i].path == Render(SAMPLE_PATHS[i])
    ensures Tree(objs, SAMPLE_PATHS)
    ensures forall i :: 0 <= i < 5 ==> Render(["d"]) <= objs[i].path
  {
    forall i | 0 <= i < 5
      ensures Components(SAMPLE_PATHS[i]) && Render(["d"]) <= objs[i].path
    {
      assert Components(["d"]) && Components(SAMPLE_PATHS[i]);
      BelowIsStringUnder(["d"], SAMPLE_PATHS[i]);
      PrefixMeans(["d"], SAMPLE_PATHS[i]);
    }
  }

  /** A search whose interface only the object at `k` can carry, and does. */
  lemma OnlyAt(objs: seq<Object>, q: Query, k: nat)
    requires q.Gatt? && k < |objs| && q.under <= objs[k].path && |objs[k].ifaces| == 1 && GattIface(objs[k].ifaces[0], q)
    requires forall i, j :: 0 <= i < k && 0 <= j < |objs[i].ifaces| ==> objs[i].ifaces[j].name != q.iface
    ensures Find(objs, q) == Some(objs[k].path)
  {
    assert IfaceMatches(objs[k].ifaces[0], q);
    FindIs(objs, q, k);
  }

  lemma SampleSearches(addr: string, srv: string, chr: string, chr10: string, desc: string)
    ensures Characteristic(Sample(addr, srv, chr, chr10, desc), addr, Some(srv), Some(chr)) ==
      Some(Render(["d", "s", "char1"]))
  {
    var objs, dev, service := Sample(addr, srv, chr, chr10, desc), Render(["d"]), Render(["d", "s"]);
    SampleIsTree(objs);
    var props := objs[0].ifaces[0].props;
    assert Address(props) == Some(addr) && DeviceIface(objs[0].ifaces[0], addr);
    assert IfaceMatches(objs[0].ifaces[0], Device(addr));
    FindIs(objs, Device(addr), 0);
    assert objs[1].ifaces[0].props[0] == Prop("UUID", srv);
    OnlyAt(objs, Query.Gatt(dev, GATTSERVICE1, Some(srv), None, None), 1);
    assert objs[2].ifaces[0].props[0] == Prop("UUID", chr) && objs[2].ifaces[0].props[1] == Prop("Service", service);
    OnlyAt(objs, Query.Gatt(dev, GATTCHARACTERISTIC1, Some(chr), Some("Service"), Some(service)), 2);
  }

  /** Why the lengths matter: the whole call settles on "char1", which has no descriptor, and lists
      the one of "char10". */
  lemma StraySiblingIsListed(addr: string, srv: string, chr: string, chr10: string, desc: string)
    ensures var objs, char1 := Sample(addr, srv, chr, chr10, desc), ["d", "s", "char1"];
      && Tree(objs, SAMPLE_PATHS)
      && Characteristic(objs, addr, Some(srv), Some(chr)) == Some(Render(char1))
      && UuidsBelow(objs, SAMPLE_PATHS, char1, GATTDESCRIPTOR1) == []
      && UuidsUnder(objs, Render(char1), GATTDESCRIPTOR1) != []
  {
    var objs, char1 := Sample(addr, srv, chr, chr10, desc), ["d", "s", "char1"];
    SampleIsTree(objs);
    SampleSearches(addr, srv, chr, chr10, desc);
    SampleDescriptors(addr, srv, chr, chr10, desc);
    ListingCounts(objs, SAMPLE_PATHS, char1, GATTDESCRIPTOR1);
    NothingBelow(objs, SAMPLE_PATHS, char1, GATTDESCRIPTOR1);
  }

  lemma SamplePaths(i: nat)
    requires i < 5
    ensures ["d", "s", "char1"] <= SAMPLE_PATHS[i] <==> i == 2
    ensures i == 4 ==> StringUnder(["d", "s", "char1"], SAMPLE_PATHS[i])
  {
    assert |["d", "s", "char1"]| == 3 && ["d", "s", "char1"][2] == "char1";
    assert i == 4 ==> SAMPLE_PATHS[i][2] == "char10" && ["d", "s", "char1"][..2] == ["d", "s"] == SAMPLE_PATHS[i][..2];
  }

  lemma SampleDescriptors(addr: string, srv: string, chr: string, chr10: string, desc: string)
    ensures var objs, char1 := Sample(addr, srv, chr, chr10, desc), ["d", "s", "char1"];
      && Stray(objs[4], SAMPLE_PATHS[4], char1, GATTDESCRIPTOR1)
      && forall i :: 0 <= i < 5 ==> !(char1 <= SAMPLE_PATHS[i]) || Uuids(objs[i].ifaces, GATTDESCRIPTOR1) == []
  {
    var objs := Sample(addr, srv, chr, chr10, desc);
    UuidOfOne(SampleIface(4, addr, srv, chr, chr10, desc), desc);
    NoUuid(objs[2].ifaces[0], GATTDESCRIPTOR1);
    SamplePaths(4);
    forall i | 0 <= i < 5
      ensures !(["d", "s", "char1"] <= SAMPLE_PATHS[i]) || Uuids(objs[i].ifaces, GATTDESCRIPTOR1) == []
    {
      SamplePaths(i);
    }
  }

  lemma NoUuid(i: Iface, name: string)
    requires i.name != name
    ensures Uuids([i], name) == []
  {
    assert [i][..0] == [];
  }

  lemma UuidOfOne(i: Iface, uuid: string)
    requires i.props == [Prop("UUID", uuid)]
    ensures Uuids([i], i.name) == [uuid]
  {
    assert i.props[..0] == [] && UuidProps(i.props) == [uuid];
    assert [i][..0] == [];
  }

  lemma {:induction false} NothingBelow(objs: seq<Object>, at: seq<seq<string>>, p: seq<string>, name: string)
    requires |at| == |objs|
    requires forall i :: 0 <= i < |objs| ==> !(p <= at[i]) || Uuids(objs[i].ifaces, name) == []
    ensures UuidsBelow(objs, at, p, name) == []
  {
    if objs != [] {
      NothingBelow(objs[..|objs| - 1], at[..|objs| - 1], p, name);
    }
  }
}
