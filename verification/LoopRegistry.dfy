/** Timer and watch registries of src/modules/base/loop/tinyara_loop.c: a vector of
    pointers to heap records, identifiers drawn from a wrapping counter, and a cleanup
    that deletes while walking the vector backwards with a 16-bit index. The timeout,
    periodic and watch registries are three copies of this code. */
module LoopRegistry {
  import opened ArtikTypes
  import opened AlignPower2
  import opened Vector

  /** `struct _timeout`, reduced to what the registry logic reads: the identifier and whether
      the record still holds the libuv handle allocated with it. The stamp `serial` is the
      model's own: the number of the add that made the record. */
  datatype Timer = Timer(serial: nat, id: int, handle: bool)

  const ID_LIMIT := 255
  const SENTINEL := 0xFFFF

  // ---------------------------------------------------------------- identifiers

  /** One registration: which add made it (counted from zero) and the identifier given. */
  datatype Entry = Entry(serial: nat, id: int)

  datatype Reg = Reg(entries: seq<Entry>, adds: nat, nextId: int)

  datatype Op = Add | Remove(id: int)

  const EMPTY := Reg([], 0, 0)

  function TakeId(nextId: int): int {
    if nextId >= ID_LIMIT then 0 else nextId
  }

  function Others(entries: seq<Entry>, id: int): seq<Entry> {
    if entries == [] then []
    else if entries[0].id == id then Others(entries[1..], id)
    else [entries[0]] + Others(entries[1..], id)
  }

  function Apply(r: Reg, op: Op): Reg {
    match op
    case Add =>
      var id := TakeId(r.nextId);
      Reg(r.entries + [Entry(r.adds, id)], r.adds + 1, id + 1)
    case Remove(id) => r.(entries := Others(r.entries, id))
  }

  function RunOps(ops: seq<Op>): Reg {
    if ops == [] then EMPTY else Apply(RunOps(ops[..|ops| - 1]), ops[|ops| - 1])
  }

  ghost predicate IdsFollowSerials(r: Reg) {
    && (r.adds == 0 ==> r.nextId == 0)
    && (r.adds > 0 ==> r.nextId == (r.adds - 1) % 255 + 1)
    && Ascending(r.entries)
    && IdsMatch(r.entries, r.adds)
  }

  lemma {:induction false} OthersMember(entries: seq<Entry>, id: int, e: Entry)
    ensures e in Others(entries, id) <==> e in entries && e.id != id
  {
    if entries != [] {
      OthersMember(entries[1..], id, e);
      assert e in entries <==> e == entries[0] || e in entries[1..];
    }
  }

  ghost predicate Ascending(entries: seq<Entry>) {
    forall i, j :: 0 <= i < j < |entries| ==> entries[i].serial < entries[j].serial
  }

  ghost predicate IdsMatch(entries: seq<Entry>, adds: nat) {
    forall i :: 0 <= i < |entries| ==>
      entries[i].serial < adds && entries[i].id == entries[i].serial % 255
  }

  lemma {:induction false} OthersKeeps(entries: seq<Entry>, id: int, adds: nat)
    requires Ascending(entries) && IdsMatch(entries, adds)
    ensures Ascending(Others(entries, id)) && IdsMatch(Others(entries, id), adds)
  {
    if entries != [] {
      var rest := Others(entries[1..], id);
      OthersKeeps(entries[1..], id, adds);
      forall j | 0 <= j < |rest|
        ensures entries[0].serial < rest[j].serial
      {
        OthersMember(entries[1..], id, rest[j]);
      }
    }
  }

  /** Over every run of adds and removals: the k-th add is given k mod 255. */
  lemma {:induction false} IdIsSerialModulo(ops: seq<Op>)
    ensures IdsFollowSerials(RunOps(ops))
  {
    if ops != [] {
      var r := RunOps(ops[..|ops| - 1]);
      IdIsSerialModulo(ops[..|ops| - 1]);
      match ops[|ops| - 1]
      case Add =>
        assert TakeId(r.nextId) == r.adds % 255;
      case Remove(id) =>
        OthersKeeps(r.entries, id, r.adds);
    }
  }

  /** The identifier that the `k`-th operation, an add, hands out. */
  function IdGiven(ops: seq<Op>, k: nat): int
    requires k < |ops| && ops[k] == Add
  {
    TakeId(RunOps(ops[..k]).nextId)
  }

  lemma {:induction false} AddsGrow(ops: seq<Op>, j: nat, k: nat)
    requires j < k <= |ops| && ops[j] == Add
    ensures RunOps(ops[..j]).adds < RunOps(ops[..k]).adds
  {
    assert ops[..k][..k - 1] == ops[..k - 1];
    if j < k - 1 {
      AddsGrow(ops, j, k - 1);
    }
  }

  /** Two adds fewer than 255 adds apart hand out different identifiers. */
  lemma NearbyAddsDiffer(ops: seq<Op>, j: nat, k: nat)
    requires j < k < |ops| && ops[j] == Add && ops[k] == Add
    requires RunOps(ops[..k]).adds < RunOps(ops[..j]).adds + 255
    ensures IdGiven(ops, j) != IdGiven(ops, k)
  {
    IdIsSerialModulo(ops[..j]);
    IdIsSerialModulo(ops[..k]);
    AddsGrow(ops, j, k);
  }

  lemma {:induction false} OthersOfNone(entries: seq<Entry>, id: int)
    requires forall m :: 0 <= m < |entries| ==> entries[m].id != id
    ensures Others(entries, id) == entries
  {
    if entries != [] {
      OthersOfNone(entries[1..], id);
    }
  }

  lemma {:induction false} RemovesAlone(es: seq<Entry>, j: nat)
    requires j < |es| && forall m :: 0 <= m < |es| && m != j ==> es[m].id != es[j].id
    ensures Others(es, es[j].id) == es[..j] + es[j + 1..]
  {
    var tail := es[1..];
    if j == 0 {
      OthersOfNone(tail, es[0].id);
    } else {
      RemovesAlone(tail, j - 1);
      assert tail[..j - 1] == es[1..j] && tail[j..] == es[j + 1..];
      assert [es[0]] + es[1..j] == es[..j];
    }
  }

  lemma RemovesMore(es: seq<Entry>, j: nat, m: nat)
    requires j < |es| && m < |es| && m != j && es[m].id == es[j].id
    ensures Others(es, es[j].id) != es[..j] + es[j + 1..]
  {
    OthersMember(es, es[j].id, es[m]);
    assert es[m] == (es[..j] + es[j + 1..])[if m < j then m else m - 1];
  }

  /** In a reachable registry, removing the identifier that registration `j` was given takes
      away that registration alone exactly when no other live one is a multiple of 255 adds
      away from it. */
  lemma RemovalIsExactIff(ops: seq<Op>, j: nat)
    requires j < |RunOps(ops).entries|
    ensures var es := RunOps(ops).entries;
      Others(es, es[j].id) == es[..j] + es[j + 1..] <==>
      forall m :: 0 <= m < |es| && m != j ==> es[m].serial % 255 != es[j].serial % 255
  {
    var es := RunOps(ops).entries;
    IdIsSerialModulo(ops);
    if m :| 0 <= m < |es| && m != j && es[m].serial % 255 == es[j].serial % 255 {
      RemovesMore(es, j, m);
    } else {
      RemovesAlone(es, j);
    }
  }

  lemma NearNotCongruent(x: nat, y: nat)
    requires x < y < x + 255
    ensures x % 255 != y % 255
  {
  }

  /** Registrations that coexist fewer than 255 adds apart are removed one at a time. */
  lemma RemovalIsExactInWindow(ops: seq<Op>, j: nat)
    requires j < |RunOps(ops).entries|
    requires forall m, n :: 0 <= m < n < |RunOps(ops).entries| ==>
               RunOps(ops).entries[n].serial - RunOps(ops).entries[m].serial < 255
    ensures var es := RunOps(ops).entries; Others(es, es[j].id) == es[..j] + es[j + 1..]
  {
    var es := RunOps(ops).entries;
    IdIsSerialModulo(ops);
    forall m | 0 <= m < |es| && m != j
      ensures es[m].serial % 255 != es[j].serial % 255
    {
      if m < j {
        NearNotCongruent(es[m].serial, es[j].serial);
      } else {
        NearNotCongruent(es[j].serial, es[m].serial);
      }
    }
    RemovalIsExactIff(ops, j);
  }

  /** The window is needed: with 256 timers alive, removing the first one's identifier also
      removes the last one. */
  lemma WrappedIdRemovesTwo()
    ensures var es := RunOps(seq(256, _ => Add)).entries;
      && |es| == 256 && es[0] != es[255] && es[0].id == es[255].id
      && es[0] !in Others(es, es[0].id) && es[255] !in Others(es, es[0].id)
  {
    var ops := seq(256, _ => Add);
    AddsOnly(ops, 256);
    assert ops[..256] == ops;
    IdIsSerialModulo(ops);
    var es := RunOps(ops).entries;
    OthersMember(es, es[0].id, es[0]);
    OthersMember(es, es[0].id, es[255]);
  }

  lemma {:induction false} AddsOnly(ops: seq<Op>, n: nat)
    requires n <= |ops| && forall k :: 0 <= k < n ==> ops[k] == Add
    ensures RunOps(ops[..n]).adds == n && |RunOps(ops[..n]).entries| == n
    ensures forall k :: 0 <= k < n ==> RunOps(ops[..n]).entries[k].serial == k
  {
    if n > 0 {
      AddsOnly(ops, n - 1);
      assert ops[..n][..n - 1] == ops[..n - 1];
      assert ops[..n][n - 1] == Add;
    }
  }

  // ---------------------------------------------------------------- the registry

  ghost predicate Distinct(s: seq<Addr>) {
    forall i, j :: 0 <= i < j < |s| ==> s[i] != s[j]
  }

  /** The pointers whose records carry another identifier, in order. */
  ghost function Keep(items: seq<Addr>, heap: map<Addr, Timer>, id: int): seq<Addr>
    requires forall a :: a in items ==> a in heap
  {
    if items == [] then []
    else if heap[items[0]].id == id then Keep(items[1..], heap, id)
    else [items[0]] + Keep(items[1..], heap, id)
  }

  lemma {:induction false} KeepMember(items: seq<Addr>, heap: map<Addr, Timer>, id: int, a: Addr)
    requires forall b :: b in items ==> b in heap
    ensures a in Keep(items, heap, id) <==> a in items && heap[a].id != id
  {
    if items != [] {
      KeepMember(items[1..], heap, id, a);
      assert a in items <==> a == items[0] || a in items[1..];
    }
  }

  ghost function Entries(items: seq<Addr>, heap: map<Addr, Timer>): (es: seq<Entry>)
    requires forall a :: a in items ==> a in heap
    ensures |es| == |items|
  {
    seq(|items|, i requires 0 <= i < |items| => Entry(heap[items[i]].serial, heap[items[i]].id))
  }

  lemma {:induction false} EntriesOfKeep(items: seq<Addr>, heap: map<Addr, Timer>, id: int)
    requires forall a :: a in items ==> a in heap
    ensures forall a :: a in Keep(items, heap, id) ==> a in items
    ensures Entries(Keep(items, heap, id), heap) == Others(Entries(items, heap), id)
  {
    if items != [] {
      EntriesOfKeep(items[1..], heap, id);
      assert Entries(items, heap)[1..] == Entries(items[1..], heap);
      if heap[items[0]].id != id {
        assert Keep(items, heap, id) == [items[0]] + Keep(items[1..], heap, id);
        assert Others(Entries(items, heap), id) == [Entries(items, heap)[0]] + Others(Entries(items[1..], heap), id);
      }
    }
  }

  /** The records listed are exactly the live ones, each once, each with its handle. */
  ghost predicate Owned(items: seq<Addr>, heap: map<Addr, Timer>) {
    && Distinct(items)
    && (forall a :: a in items <==> a in heap)
    && (forall a :: a in heap ==> a != NULL && heap[a].handle)
  }

  lemma OwnedAfterRelease(items: seq<Addr>, heap: map<Addr, Timer>, i: nat)
    requires Owned(items, heap) && i < |items|
    ensures Owned(items[..i] + items[i + 1..], heap - {items[i]})
  {
    var rest := items[..i] + items[i + 1..];
    assert forall j :: 0 <= j < |rest| ==> rest[j] == items[if j < i then j else j + 1];
    forall a
      ensures a in rest <==> a in heap - {items[i]}
    {
      if a in items && a != items[i] {
        var j :| 0 <= j < |items| && items[j] == a;
        assert rest[if j < i then j else j - 1] == a;
      }
    }
  }

  lemma OwnedAfterAdd(items: seq<Addr>, heap: map<Addr, Timer>, record: Addr, timer: Timer)
    requires Owned(items, heap) && record != NULL && record !in heap && timer.handle
    ensures Owned(items + [record], heap[record := timer])
    ensures Entries(items + [record], heap[record := timer]) ==
            Entries(items, heap) + [Entry(timer.serial, timer.id)]
  {
  }

  /** The memory that the registry owns. `heap` holds the live records: reading or freeing
      anything outside it would not verify. */
  class Registry {
    const vector: PtrVector<Addr>
    var heap: map<Addr, Timer>
    var nextId: int
    var adds: nat

    ghost predicate Valid()
      reads this, vector, vector.data
    {
      vector.Valid() && Owned(vector.Items(), heap)
    }

    ghost function Abs(): Reg
      requires Valid()
      reads this, vector, vector.data
    {
      Reg(Entries(vector.Items(), heap), adds, nextId)
    }

    constructor ()
      ensures Valid() && fresh(vector) && fresh(vector.data) && Abs() == EMPTY
    {
      vector := new PtrVector<Addr>(NULL);
      heap := map[];
      nextId := 0;
      adds := 0;
    }

    /** `os_add_timeout_callback`; `record` is the address that `malloc` returned. With 65535
        timers alive the append leaves the buffer, and nothing is said of what follows. */
    method AddTimer(record: Addr) returns (id: Option<int>)
      requires Valid() && record != NULL && record !in heap
      modifies this, vector, vector.data
      ensures id.None? <==> old(vector.len) == USHRT_MAX
      ensures id.Some? ==>
        && Valid() && (vector.data == old(vector.data) || fresh(vector.data))
        && Abs() == Apply(old(Abs()), Op.Add)
        && vector.Items() == old(vector.Items()) + [record]
        && heap == old(heap)[record := Timer(old(adds), id.value, true)]
    {
      ghost var items := vector.Items();
      var inRange := vector.Append(record);
      if !inRange {
        return None;
      }
      var given := Register(record, items);
      return Some(given);
    }

    /** The identifier for the record just appended, drawn from the wrapping counter. */
    method Register(record: Addr, ghost items: seq<Addr>) returns (id: int)
      requires vector.Valid() && Owned(items, heap) && vector.Items() == items + [record]
      requires record != NULL && record !in heap
      modifies this`heap, this`nextId, this`adds
      ensures Valid() && Abs() == Apply(Reg(Entries(items, old(heap)), old(adds), old(nextId)), Op.Add)
      ensures heap == old(heap)[record := Timer(old(adds), id, true)]
    {
      OwnedAfterAdd(items, heap, record, Timer(adds, TakeId(nextId), true));
      if nextId >= ID_LIMIT {
        nextId := 0;
      }
      id := nextId;
      nextId := nextId + 1;
      heap := heap[record := Timer(adds, id, true)];
      adds := adds + 1;
    }

    /** Stops, clears and frees the record at `i`, then deletes it from the vector. */
    method Release(i: nat)
      requires Valid() && i < vector.len
      modifies this`heap, vector, vector.data
      ensures Valid() && (vector.data == old(vector.data) || fresh(vector.data))
      ensures vector.Items() == old(vector.Items())[..i] + old(vector.Items())[i + 1..]
      ensures heap == old(heap) - {old(vector.Items())[i]}
    {
      OwnedAfterRelease(vector.Items(), heap, i);
      var record := vector.Get(i);
      if heap[record].handle {
        heap := heap - {record};
      }
      var reallocOk := *;
      var _ := vector.Del(i, reallocOk);
      assert Owned(vector.Items(), heap);
    }

    /** `timeout_cleanup`: everything that carries `id` goes, and nothing else changes. */
    method Cleanup(id: int)
      requires Valid()
      modifies this`heap, vector, vector.data
      ensures Valid() && (vector.data == old(vector.data) || fresh(vector.data))
      ensures vector.Items() == Keep(old(vector.Items()), old(heap), id)
      ensures heap == map a | a in old(heap) && old(heap)[a].id != id :: old(heap)[a]
      ensures Abs() == Apply(old(Abs()), Op.Remove(id))
    {
      ghost var items, heap0, data0 := vector.Items(), heap, vector.data;
      var i := Decrement(vector.len);
      assert items[..|items|] == items && items[|items|..] == [];
      while i != SENTINEL
        invariant 0 <= i <= SENTINEL
        invariant Valid() && (vector.data == data0 || fresh(vector.data))
        invariant Walked(i) <= |items|
        invariant vector.Items() == items[..Walked(i)] + Keep(items[Walked(i)..], heap0, id)
        invariant heap.Keys <= heap0.Keys && forall a :: a in heap ==> heap[a] == heap0[a]
        decreases Walked(i)
      {
        KeepStep(items, i, heap0, id);
        var record := vector.Get(i);
        if heap[record].id == id {
          Release(i);
        }
        i := Decrement(i);
      }
      assert items[0..] == items && items[..0] == [];
      assert vector.Items() == Keep(items, heap0, id);
      CleanupOutcome(items, heap0, heap, id);
    }
  }

  /** The elements below the backward index, none once it has stepped past zero. */
  function Walked(i: nat): nat {
    if i == SENTINEL then 0 else i + 1
  }

  /** `uint16_t` minus one. The index that results never equals the sentinel unless
      nothing is left to walk, not even from a vector of 65535 elements. */
  function Decrement(i: nat): (r: nat)
    requires i <= SENTINEL
    ensures r <= SENTINEL && Walked(r) == i
  {
    (i + 0xFFFF) % 0x1_0000
  }

  lemma CleanupOutcome(items: seq<Addr>, heap: map<Addr, Timer>, heap': map<Addr, Timer>, id: int)
    requires Owned(items, heap) && Owned(Keep(items, heap, id), heap')
    requires heap'.Keys <= heap.Keys && forall a :: a in heap' ==> heap'[a] == heap[a]
    ensures heap' == map a | a in heap && heap[a].id != id :: heap[a]
    ensures Entries(Keep(items, heap, id), heap') == Others(Entries(items, heap), id)
  {
    forall a | a in heap
      ensures a in heap' <==> heap[a].id != id
    {
      KeepMember(items, heap, id, a);
    }
    EntriesOfKeep(items, heap, id);
    assert Entries(Keep(items, heap, id), heap') == Entries(Keep(items, heap, id), heap);
  }

  /** One step of the backward walk, before and after the element at `i` is judged. */
  lemma KeepStep(items: seq<Addr>, i: nat, heap: map<Addr, Timer>, id: int)
    requires i < |items| && forall a :: a in items ==> a in heap
    ensures var walked := items[..i + 1] + Keep(items[i + 1..], heap, id);
      && walked[i] == items[i]
      && items[..i] + Keep(items[i..], heap, id) ==
           if heap[items[i]].id == id then walked[..i] + walked[i + 1..] else walked
  {
    assert items[i..][1..] == items[i + 1..];
    assert items[..i + 1] == items[..i] + [items[i]];
  }
}
