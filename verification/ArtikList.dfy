/** The handle-keyed linked list of inc/base/artik_list.h. C memory is explicit: a map from
    addresses to live nodes, in which an address may be handed out again once it has been
    freed. A read, write or free of an address outside the map would not verify. */
module ArtikList {
  import opened ArtikTypes

  /** `artik_list`, with the fields that a user appends to it as `payload`. */
  datatype Node<P> = Node(next: Addr, handle: Addr, clear: bool, data: Addr, payload: P)

  /** A node as the list's users see it: its address and everything but the link. */
  datatype Cell<P> = Cell(addr: Addr, handle: Addr, clear: bool, data: Addr, payload: P)

  /** Allocator traffic and calls of the `clear` function. */
  datatype Event = Alloc(a: Addr) | Clear(a: Addr) | FreeData(d: Addr) | Free(a: Addr)

  // ---------------------------------------------------------------- one deletion, four tests

  datatype Test<!P> =
    | IsNode(node: Addr)
    | HasHandle(handle: Addr)
    | AtPos(pos: nat, size: nat)
    | Passes(check: Cell<P> -> bool)

  predicate Holds<P>(t: Test<P>, i: nat, c: Cell<P>) {
    match t
    case IsNode(node) => c.addr == node
    case HasHandle(handle) => handle != NULL && c.handle == handle
    case AtPos(pos, size) => i == pos && pos < size
    case Passes(check) => check(c)
  }

  /** The first index from `k` on at which the test holds, the length if there is none. */
  function First<P>(cells: seq<Cell<P>>, t: Test<P>, k: nat): (r: nat)
    requires k <= |cells|
    ensures k <= r <= |cells|
    ensures forall i :: k <= i < r ==> !Holds(t, i, cells[i])
    ensures r < |cells| ==> Holds(t, r, cells[r])
    decreases |cells| - k
  {
    if k == |cells| || Holds(t, k, cells[k]) then k else First(cells, t, k + 1)
  }

  lemma FirstIs<P>(cells: seq<Cell<P>>, t: Test<P>, k: nat)
    requires k <= |cells| && forall i :: 0 <= i < k ==> !Holds(t, i, cells[i])
    requires k < |cells| ==> Holds(t, k, cells[k])
    ensures First(cells, t, 0) == k
  {
  }

  function AddrAt<P>(cells: seq<Cell<P>>, i: nat): Addr {
    if i < |cells| then cells[i].addr else NULL
  }

  /** What the deletes do to a node once it is unlinked. */
  function Released<P>(c: Cell<P>): seq<Event> {
    var cleared := if c.clear then [Clear(c.addr)] else [];
    (if c.data != NULL then cleared + [FreeData(c.data)] else cleared) + [Free(c.addr)]
  }

  function ReleasedAll<P>(cells: seq<Cell<P>>): seq<Event> {
    if cells == [] then [] else Released(cells[0]) + ReleasedAll(cells[1..])
  }

  datatype State<P> = State(cells: seq<Cell<P>>, log: seq<Event>)

  function Without<P>(cells: seq<Cell<P>>, k: nat): (rest: seq<Cell<P>>)
    requires k < |cells|
    ensures |rest| == |cells| - 1
    ensures forall i {:trigger rest[i]} :: 0 <= i < |rest| ==> rest[i] == cells[if i < k then i else i + 1]
  {
    cells[..k] + cells[k + 1..]
  }

  /** The one deletion that all four implement. */
  function RemoveFirst<P>(s: State<P>, t: Test<P>): State<P> {
    var k := First(s.cells, t, 0);
    if k == |s.cells| then s else State(Without(s.cells, k), s.log + Released(s.cells[k]))
  }

  // ---------------------------------------------------------------- whole runs

  /** `SetFields` is what a user does to a node after it was added. */
  datatype Op<!P> =
    | Add(cell: Cell<P>)
    | SetFields(node: Addr, clear: bool, data: Addr, payload: P)
    | Delete(test: Test<P>)
    | DeleteAll

  ghost predicate Live<P>(cells: seq<Cell<P>>, a: Addr) {
    exists i :: 0 <= i < |cells| && cells[i].addr == a
  }

  /** `malloc` may return any address but null that no live node has, the node added has neither
      `clear` nor data, and only live nodes are written to. */
  ghost predicate Enabled<P>(s: State<P>, op: Op<P>) {
    && (op.Add? ==> op.cell.addr != NULL && !Live(s.cells, op.cell.addr) && !op.cell.clear && op.cell.data == NULL)
    && (op.SetFields? ==> Live(s.cells, op.node))
  }

  function Fill<P>(c: Cell<P>, clear: bool, data: Addr, payload: P): Cell<P> {
    c.(clear := clear, data := data, payload := payload)
  }

  function Apply<P>(s: State<P>, op: Op<P>): State<P> {
    match op
    case Add(cell) => State(s.cells + [cell], s.log + [Alloc(cell.addr)])
    case SetFields(node, clear, data, payload) =>
      var k := First(s.cells, IsNode(node), 0);
      if k == |s.cells| then s else s.(cells := s.cells[k := Fill(s.cells[k], clear, data, payload)])
    case Delete(test) => RemoveFirst(s, test)
    case DeleteAll => State([], s.log + ReleasedAll(s.cells))
  }

  function RunOps<P>(ops: seq<Op<P>>): State<P> {
    if ops == [] then State([], []) else Apply(RunOps(ops[..|ops| - 1]), ops[|ops| - 1])
  }

  ghost predicate Possible<P>(ops: seq<Op<P>>) {
    forall k :: 0 <= k < |ops| ==> Enabled(RunOps(ops[..k]), ops[k])
  }

  /** A node at `a` whose `clear` is set, or is not. */
  ghost predicate LiveWith<P>(cells: seq<Cell<P>>, a: Addr, clear: bool) {
    exists i :: 0 <= i < |cells| && cells[i].addr == a && cells[i].clear == clear
  }

  ghost predicate DistinctAddrs<P>(cells: seq<Cell<P>>) {
    forall i, j :: 0 <= i < j < |cells| ==> cells[i].addr != cells[j].addr
  }

  function B2N(b: bool): nat {
    if b then 1 else 0
  }

  ghost predicate Balanced<P>(s: State<P>) {
    && DistinctAddrs(s.cells)
    && forall a :: multiset(s.log)[Alloc(a)] == multiset(s.log)[Free(a)] + B2N(Live(s.cells, a))
  }

  lemma CountReleased<P>(c: Cell<P>, a: Addr)
    ensures multiset(Released(c))[Alloc(a)] == 0
    ensures multiset(Released(c))[Free(a)] == B2N(c.addr == a)
    ensures multiset(Released(c))[Clear(a)] == B2N(c.clear && c.addr == a)
  {
  }

  /** A release, in order: the clear function, then the data, then the node, and nothing else. */
  lemma ReleaseOrder<P>(c: Cell<P>)
    ensures var log := Released(c);
      && log != [] && log[|log| - 1] == Free(c.addr)
      && (c.clear <==> log[0] == Clear(c.addr))
      && (c.data != NULL <==> |log| >= 2 && log[|log| - 2] == FreeData(c.data))
      && |log| == 1 + B2N(c.clear) + B2N(c.data != NULL)
  {
  }

  lemma {:induction false} ReleasedAllConcat<P>(x: seq<Cell<P>>, y: seq<Cell<P>>)
    ensures ReleasedAll(x + y) == ReleasedAll(x) + ReleasedAll(y)
  {
    if x == [] {
      assert x + y == y;
    } else {
      ReleasedAllConcat(x[1..], y);
      assert (x + y)[1..] == x[1..] + y;
    }
  }

  lemma ReleasedAllCons<P>(cells: seq<Cell<P>>)
    requires cells != []
    ensures ReleasedAll(cells) == Released(cells[0]) + ReleasedAll(cells[1..])
  {
  }

  /** `delete_all` releases in list order: node `k` after all before it and before all after it. */
  lemma ReleasedInOrder<P>(cells: seq<Cell<P>>, k: nat)
    requires k < |cells|
    ensures ReleasedAll(cells) == ReleasedAll(cells[..k]) + (Released(cells[k]) + ReleasedAll(cells[k + 1..]))
  {
    ReleasedAllConcat(cells[..k], cells[k..]);
    assert cells == cells[..k] + cells[k..];
    ReleasedAllCons(cells[k..]);
    assert cells[k..][1..] == cells[k + 1..];
  }

  lemma CountConcat(x: seq<Event>, y: seq<Event>, e: Event)
    ensures multiset(x + y)[e] == multiset(x)[e] + multiset(y)[e]
  {
  }

  lemma {:induction false} CountReleasedAll<P>(cells: seq<Cell<P>>, a: Addr)
    requires DistinctAddrs(cells)
    ensures multiset(ReleasedAll(cells))[Alloc(a)] == 0
    ensures multiset(ReleasedAll(cells))[Free(a)] == B2N(Live(cells, a))
    ensures multiset(ReleasedAll(cells))[Clear(a)] == B2N(LiveWith(cells, a, true))
  {
    if cells != [] {
      var first, rest := Released(cells[0]), ReleasedAll(cells[1..]);
      CountReleased(cells[0], a);
      CountReleasedAll(cells[1..], a);
      CountConcat(first, rest, Alloc(a));
      CountConcat(first, rest, Free(a));
      CountConcat(first, rest, Clear(a));
      LiveCons(cells, a);
    }
  }

  lemma LiveCons<P>(cells: seq<Cell<P>>, a: Addr)
    requires cells != [] && DistinctAddrs(cells)
    ensures B2N(Live(cells, a)) == B2N(cells[0].addr == a) + B2N(Live(cells[1..], a))
    ensures B2N(LiveWith(cells, a, true)) ==
            B2N(cells[0].clear && cells[0].addr == a) + B2N(LiveWith(cells[1..], a, true))
  {
    if i :| 0 <= i < |cells| && cells[i].addr == a {
      if i > 0 {
        assert cells[1..][i - 1].addr == a;
      }
    }
  }

  lemma LiveWithout<P>(cells: seq<Cell<P>>, k: nat, a: Addr)
    requires k < |cells| && DistinctAddrs(cells)
    ensures Live(Without(cells, k), a) <==> Live(cells, a) && cells[k].addr != a
  {
    var rest := Without(cells, k);
    if i :| 0 <= i < |cells| && cells[i].addr == a && i != k {
      assert rest[if i < k then i else i - 1].addr == a;
    }
    if i :| 0 <= i < |rest| && rest[i].addr == a {
      assert cells[if i < k then i else i + 1].addr == a;
    }
  }

  lemma LiveSnoc<P>(cells: seq<Cell<P>>, c: Cell<P>, a: Addr)
    ensures Live(cells + [c], a) <==> Live(cells, a) || a == c.addr
  {
    if i :| 0 <= i < |cells| && cells[i].addr == a {
      assert (cells + [c])[i].addr == a;
    }
    assert (cells + [c])[|cells|] == c;
  }

  lemma AddBalance<P>(s: State<P>, c: Cell<P>)
    requires Balanced(s) && Enabled(s, Op.Add(c))
    ensures Balanced(Apply(s, Op.Add(c)))
  {
    forall a
      ensures multiset(s.log + [Alloc(c.addr)])[Alloc(a)] ==
              multiset(s.log + [Alloc(c.addr)])[Free(a)] + B2N(Live(s.cells + [c], a))
    {
      LiveSnoc(s.cells, c, a);
    }
  }

  lemma RemoveBalance<P>(s: State<P>, k: nat)
    requires Balanced(s) && k < |s.cells|
    ensures Balanced(State(Without(s.cells, k), s.log + Released(s.cells[k])))
  {
    var log' := s.log + Released(s.cells[k]);
    forall a
      ensures multiset(log')[Alloc(a)] == multiset(log')[Free(a)] + B2N(Live(Without(s.cells, k), a))
    {
      CountReleased(s.cells[k], a);
      LiveWithout(s.cells, k, a);
    }
  }

  lemma ClearAllBalance<P>(s: State<P>)
    requires Balanced(s)
    ensures Balanced(Apply(s, DeleteAll))
  {
    var log' := s.log + ReleasedAll(s.cells);
    forall a
      ensures multiset(log')[Alloc(a)] == multiset(log')[Free(a)] + B2N(Live<P>([], a))
    {
      CountReleasedAll(s.cells, a);
    }
  }

  lemma SetFieldsBalance<P>(s: State<P>, k: nat, c: Cell<P>)
    requires Balanced(s) && k < |s.cells| && c.addr == s.cells[k].addr
    ensures Balanced(s.(cells := s.cells[k := c]))
  {
    var cells := s.cells[k := c];
    forall a
      ensures Live(cells, a) <==> Live(s.cells, a)
    {
      if i :| 0 <= i < |s.cells| && s.cells[i].addr == a {
        assert cells[i].addr == a;
      }
    }
  }

  lemma StepBalance<P>(s: State<P>, op: Op<P>)
    requires Balanced(s) && Enabled(s, op)
    ensures Balanced(Apply(s, op))
  {
    match op
    case Add(cell) =>
      AddBalance(s, cell);
    case SetFields(node, clear, data, payload) =>
      var k := First(s.cells, IsNode(node), 0);
      if k < |s.cells| {
        SetFieldsBalance(s, k, Fill(s.cells[k], clear, data, payload));
      }
    case Delete(test) =>
      var k := First(s.cells, test, 0);
      if k < |s.cells| {
        RemoveBalance(s, k);
      }
    case DeleteAll =>
      ClearAllBalance(s);
  }

  /** Over every run: at every address the frees keep pace with the allocations, with one
      allocation outstanding exactly while a node of the list is there. So no node is freed
      twice or lost, and after `delete_all` nothing is outstanding. */
  lemma {:induction false} EveryNodeFreedOnce<P>(ops: seq<Op<P>>)
    requires Possible(ops)
    ensures Balanced(RunOps(ops))
    ensures |ops| > 0 && ops[|ops| - 1] == DeleteAll ==>
              forall a :: multiset(RunOps(ops).log)[Alloc(a)] == multiset(RunOps(ops).log)[Free(a)]
  {
    if ops != [] {
      var before := ops[..|ops| - 1];
      PossiblePrefix(ops);
      EveryNodeFreedOnce(before);
      StepBalance(RunOps(before), ops[|ops| - 1]);
    }
  }

  /** The nodes that an operation releases. */
  function Gone<P>(s: State<P>, op: Op<P>): seq<Cell<P>> {
    match op
    case Delete(test) => var k := First(s.cells, test, 0); if k == |s.cells| then [] else [s.cells[k]]
    case DeleteAll => s.cells
    case _ => []
  }

  /** The releases of a node at `a` whose `clear`, at that moment, was set. */
  ghost function ClearedReleases<P>(ops: seq<Op<P>>, a: Addr): nat {
    if ops == [] then 0
    else
      var before := ops[..|ops| - 1];
      ClearedReleases(before, a) + B2N(LiveWith(Gone(RunOps(before), ops[|ops| - 1]), a, true))
  }

  /** The `k`-th operation releases a node at `a` whose `clear` is not set. */
  ghost predicate UnclearedAt<P>(ops: seq<Op<P>>, k: nat, a: Addr)
    requires k < |ops|
  {
    LiveWith(Gone(RunOps(ops[..k]), ops[k]), a, false)
  }

  lemma StepLog<P>(s: State<P>, op: Op<P>)
    ensures Apply(s, op).log == s.log + if op.Add? then [Alloc(op.cell.addr)] else ReleasedAll(Gone(s, op))
    ensures DistinctAddrs(s.cells) ==> DistinctAddrs(Gone(s, op))
  {
    if op.Delete? && First(s.cells, op.test, 0) < |s.cells| {
      var c := s.cells[First(s.cells, op.test, 0)];
      assert [c][1..] == [] && ReleasedAll([c]) == Released(c);
    }
  }

  lemma LiveSplit<P>(cells: seq<Cell<P>>, a: Addr)
    requires DistinctAddrs(cells)
    ensures B2N(Live(cells, a)) == B2N(LiveWith(cells, a, true)) + B2N(LiveWith(cells, a, false))
  {
    if i :| 0 <= i < |cells| && cells[i].addr == a {
      assert LiveWith(cells, a, cells[i].clear);
    }
  }

  lemma StepCounts<P>(s: State<P>, op: Op<P>, a: Addr)
    requires DistinctAddrs(s.cells)
    ensures var log, log', gone := multiset(s.log), multiset(Apply(s, op).log), Gone(s, op);
      && log'[Clear(a)] == log[Clear(a)] + B2N(LiveWith(gone, a, true))
      && log'[Free(a)] == log[Free(a)] + B2N(LiveWith(gone, a, true)) + B2N(LiveWith(gone, a, false))
  {
    StepLog(s, op);
    var more := if op.Add? then [Alloc(op.cell.addr)] else ReleasedAll(Gone(s, op));
    CountConcat(s.log, more, Clear(a));
    CountConcat(s.log, more, Free(a));
    CountReleasedAll(Gone(s, op), a);
    LiveSplit(Gone(s, op), a);
  }

  /** Over every run, at every address: `clear` is called once for each release of a node that
      has it set at that moment; so it is called for every release exactly if no node is
      released without it. */
  lemma {:induction false} EveryNodeClearedOnce<P>(ops: seq<Op<P>>, a: Addr)
    requires Possible(ops)
    ensures var log := multiset(RunOps(ops).log);
      && log[Clear(a)] == ClearedReleases(ops, a) <= log[Free(a)]
      && (log[Clear(a)] == log[Free(a)] <==> forall k :: 0 <= k < |ops| ==> !UnclearedAt(ops, k, a))
  {
    if ops != [] {
      var n := |ops| - 1;
      var before := ops[..n];
      PossiblePrefix(ops);
      EveryNodeClearedOnce(before, a);
      EveryNodeFreedOnce(before);
      StepCounts(RunOps(before), ops[n], a);
      UnclearedPrefix(ops, a);
    }
  }

  lemma PossiblePrefix<P>(ops: seq<Op<P>>)
    requires Possible(ops) && ops != []
    ensures Possible(ops[..|ops| - 1])
  {
    var before := ops[..|ops| - 1];
    assert forall k :: 0 <= k < |before| ==> before[..k] == ops[..k];
  }

  lemma UnclearedPrefix<P>(ops: seq<Op<P>>, a: Addr)
    requires ops != []
    ensures var n := |ops| - 1;
      (forall k :: 0 <= k < |ops| ==> !UnclearedAt(ops, k, a)) <==>
      !UnclearedAt(ops, n, a) && forall k :: 0 <= k < n ==> !UnclearedAt(ops[..n], k, a)
  {
    var n := |ops| - 1;
    forall k | 0 <= k < n
      ensures UnclearedAt(ops[..n], k, a) <==> UnclearedAt(ops, k, a)
    {
      assert ops[..n][..k] == ops[..k];
    }
  }

  /** The nodes among `cells` that carry the data block `d`. */
  function WithData<P>(cells: seq<Cell<P>>, d: Addr): nat {
    if cells == [] then 0 else B2N(cells[0].data == d) + WithData(cells[1..], d)
  }

  /** The releases, over the run, of nodes that carry `d` at that moment. */
  ghost function DataReleases<P>(ops: seq<Op<P>>, d: Addr): nat {
    if ops == [] then 0
    else
      var before := ops[..|ops| - 1];
      DataReleases(before, d) + WithData(Gone(RunOps(before), ops[|ops| - 1]), d)
  }

  lemma {:induction false} CountData<P>(cells: seq<Cell<P>>, d: Addr)
    requires d != NULL
    ensures multiset(ReleasedAll(cells))[FreeData(d)] == WithData(cells, d)
  {
    if cells != [] {
      CountData(cells[1..], d);
      CountConcat(Released(cells[0]), ReleasedAll(cells[1..]), FreeData(d));
    }
  }

  /** Over every run: a data block is freed once for every release of a node that carries it. */
  lemma {:induction false} EveryDataFreedOnce<P>(ops: seq<Op<P>>, d: Addr)
    requires d != NULL
    ensures multiset(RunOps(ops).log)[FreeData(d)] == DataReleases(ops, d)
  {
    if ops != [] {
      var before, op := ops[..|ops| - 1], ops[|ops| - 1];
      var s := RunOps(before);
      EveryDataFreedOnce(before, d);
      StepLog(s, op);
      CountConcat(s.log, if op.Add? then [Alloc(op.cell.addr)] else ReleasedAll(Gone(s, op)), FreeData(d));
      CountData(Gone(s, op), d);
    }
  }

  /** The handle is left to be the node's own address. */
  predicate HasDefaultHandle<P>(c: Cell<P>) {
    c.handle == c.addr && c.addr != NULL
  }

  ghost predicate DefaultHandles<P>(ops: seq<Op<P>>) {
    forall k :: 0 <= k < |ops| && ops[k].Add? ==> HasDefaultHandle(ops[k].cell)
  }

  /** What holds of every node added holds of every node that is still in the list. */
  lemma {:induction false} HandlesComeFromAdds<P>(ops: seq<Op<P>>)
    requires DefaultHandles(ops)
    ensures forall i :: 0 <= i < |RunOps(ops).cells| ==> HasDefaultHandle(RunOps(ops).cells[i])
  {
    if ops != [] {
      HandlesComeFromAdds(ops[..|ops| - 1]);
      match ops[|ops| - 1]
      case Add(cell) => assert HasDefaultHandle(cell);
      case SetFields(_, _, _, _) =>
      case Delete(_) =>
      case DeleteAll =>
    }
  }

  /** A list built with default handles only: looking a node's handle up finds that node. */
  lemma DefaultHandlesFindTheirNode<P>(ops: seq<Op<P>>, i: nat)
    requires Possible(ops) && DefaultHandles(ops)
    requires i < |RunOps(ops).cells|
    ensures First(RunOps(ops).cells, HasHandle(RunOps(ops).cells[i].handle), 0) == i
  {
    var cells := RunOps(ops).cells;
    EveryNodeFreedOnce(ops);
    HandlesComeFromAdds(ops);
    FirstIs(cells, HasHandle(cells[i].handle), i);
  }

  // ---------------------------------------------------------------- nodes in memory

  ghost function NodeOf<P>(c: Cell<P>, next: Addr): Node<P> {
    Node(next, c.handle, c.clear, c.data, c.payload)
  }

  /** The cell at `i` is in memory, in its place, and linked to the next one. */
  ghost predicate LinkAt<P>(mem: map<Addr, Node<P>>, cells: seq<Cell<P>>, place: map<Addr, nat>, i: nat)
    requires i < |cells|
  {
    var a := cells[i].addr;
    a in mem && a in place && place[a] == i && mem[a] == NodeOf(cells[i], AddrAt(cells, i + 1))
  }

  /** The nodes reached from `head` are `cells`, without repetition, and no other node is
      live: `place` gives each live node its one position in the list. */
  ghost predicate Linked<P>(mem: map<Addr, Node<P>>, head: Addr, cells: seq<Cell<P>>, place: map<Addr, nat>) {
    && head == AddrAt(cells, 0)
    && NULL !in mem
    && (forall i {:trigger LinkAt(mem, cells, place, i)} :: 0 <= i < |cells| ==> LinkAt(mem, cells, place, i))
    && (forall a :: a in mem ==> a in place && place[a] < |cells| && cells[place[a]].addr == a)
  }

  /** The node at an address, as a check function is handed it. */
  function CellAt<P>(mem: map<Addr, Node<P>>, a: Addr): Cell<P>
    requires a in mem
  {
    var n := mem[a];
    Cell(a, n.handle, n.clear, n.data, n.payload)
  }

  /** `elem` is the first node of the list, in memory, that passes `want`; null if none does. */
  ghost predicate Finds<P>(mem: map<Addr, Node<P>>, cells: seq<Cell<P>>, want: Cell<P> -> bool, elem: Addr) {
    if elem == NULL then forall a :: a in mem ==> !want(CellAt(mem, a))
    else
      && elem in mem && want(CellAt(mem, elem))
      && exists k :: 0 <= k < |cells| && cells[k].addr == elem && NoneBefore(mem, cells, want, k)
  }

  ghost predicate NoneBefore<P>(mem: map<Addr, Node<P>>, cells: seq<Cell<P>>, want: Cell<P> -> bool, k: nat)
    requires k <= |cells|
  {
    forall i :: 0 <= i < k ==> cells[i].addr in mem && !want(CellAt(mem, cells[i].addr))
  }

  /** What a delete does to memory: the first node that passes `want` goes and every other keeps
      all that its users see; with no such node nothing changes and E_BAD_ARGS is the answer. */
  ghost predicate Deletes<P>(mem: map<Addr, Node<P>>, cells: seq<Cell<P>>, want: Cell<P> -> bool, ret: Error,
      mem': map<Addr, Node<P>>) {
    if ret == E_BAD_ARGS then Finds(mem, cells, want, NULL) && mem' == mem
    else ret == S_OK && exists elem :: elem != NULL && Finds(mem, cells, want, elem) && Loses(mem, elem, mem')
  }

  ghost predicate Loses<P>(mem: map<Addr, Node<P>>, elem: Addr, mem': map<Addr, Node<P>>) {
    mem'.Keys == mem.Keys - {elem} && forall a :: a in mem' ==> CellAt(mem', a) == CellAt(mem, a)
  }

  /** A search by a test that means `want` finds, in memory, what passes `want`. */
  lemma FirstInMemory<P>(mem: map<Addr, Node<P>>, head: Addr, cells: seq<Cell<P>>, place: map<Addr, nat>, t: Test<P>,
      want: Cell<P> -> bool)
    requires Linked(mem, head, cells, place)
    requires forall i :: 0 <= i < |cells| ==> (Holds(t, i, cells[i]) <==> want(cells[i]))
    ensures Finds(mem, cells, want, AddrAt(cells, First(cells, t, 0)))
  {
    var k := First(cells, t, 0);
    forall i | 0 <= i < |cells|
      ensures cells[i].addr in mem && CellAt(mem, cells[i].addr) == cells[i] && cells[i].addr != NULL
    {
      assert LinkAt(mem, cells, place, i);
    }
    if k < |cells| {
      assert NoneBefore(mem, cells, want, k);
    } else {
      forall a | a in mem
        ensures !want(CellAt(mem, a))
      {
        assert !Holds(t, place[a], cells[place[a]]);
      }
    }
  }

  ghost function Before<P>(cells: seq<Cell<P>>, k: nat): Addr {
    if 0 < k <= |cells| then cells[k - 1].addr else NULL
  }

  /** Memory after `prev` has been made to point to `next`. */
  ghost function Relinked<P>(mem: map<Addr, Node<P>>, prev: Addr, next: Addr): map<Addr, Node<P>>
    requires prev != NULL ==> prev in mem
  {
    if prev != NULL then mem[prev := mem[prev].(next := next)] else mem
  }

  ghost function WithoutPlace(place: map<Addr, nat>, k: nat): map<Addr, nat> {
    map a | a in place && place[a] != k :: if place[a] < k then place[a] else place[a] - 1
  }

  lemma UnlinkKeepsLinked<P>(mem: map<Addr, Node<P>>, head: Addr, cells: seq<Cell<P>>, place: map<Addr, nat>, k: nat)
    requires Linked(mem, head, cells, place) && k < |cells|
    ensures Before(cells, k) != NULL ==> Before(cells, k) in mem
    ensures Linked(Relinked(mem, Before(cells, k), AddrAt(cells, k + 1)) - {cells[k].addr},
                   AddrAt(Without(cells, k), 0), Without(cells, k), WithoutPlace(place, k))
  {
    assert LinkAt(mem, cells, place, k);
    assert k > 0 ==> LinkAt(mem, cells, place, k - 1);
    var mem' := Relinked(mem, Before(cells, k), AddrAt(cells, k + 1)) - {cells[k].addr};
    var cells', place' := Without(cells, k), WithoutPlace(place, k);
    forall i | 0 <= i < |cells'|
      ensures LinkAt(mem', cells', place', i)
    {
      assert LinkAt(mem, cells, place, if i < k then i else i + 1);
    }
  }

  lemma AppendKeepsLinked<P>(mem: map<Addr, Node<P>>, head: Addr, cells: seq<Cell<P>>, place: map<Addr, nat>,
      c: Cell<P>)
    requires Linked(mem, head, cells, place) && c.addr != NULL && c.addr !in mem
    ensures Before(cells, |cells|) != NULL ==> Before(cells, |cells|) in mem
    ensures Linked(Relinked(mem, Before(cells, |cells|), c.addr)[c.addr := NodeOf(c, NULL)],
                   AddrAt(cells + [c], 0), cells + [c], place[c.addr := |cells|])
  {
    assert cells != [] ==> LinkAt(mem, cells, place, |cells| - 1);
    var mem' := Relinked(mem, Before(cells, |cells|), c.addr)[c.addr := NodeOf(c, NULL)];
    var cells', place' := cells + [c], place[c.addr := |cells|];
    forall i | 0 <= i < |cells'|
      ensures LinkAt(mem', cells', place', i)
    {
      if i < |cells| {
        assert LinkAt(mem, cells, place, i);
      }
    }
  }

  lemma FillKeepsLinked<P>(mem: map<Addr, Node<P>>, head: Addr, cells: seq<Cell<P>>, place: map<Addr, nat>,
      k: nat, c: Cell<P>)
    requires Linked(mem, head, cells, place) && k < |cells| && c.addr == cells[k].addr
    ensures Linked(mem[c.addr := NodeOf(c, AddrAt(cells, k + 1))], head, cells[k := c], place)
  {
    var mem', cells' := mem[c.addr := NodeOf(c, AddrAt(cells, k + 1))], cells[k := c];
    assert LinkAt(mem, cells, place, k);
    forall i | 0 <= i < |cells|
      ensures LinkAt(mem', cells', place, i)
    {
      assert LinkAt(mem, cells, place, i);
    }
  }

  lemma DrainStep<P>(log: seq<Event>, cells: seq<Cell<P>>, k: nat)
    requires k < |cells|
    ensures (log + Released(cells[k])) + ReleasedAll(cells[k + 1..]) == log + ReleasedAll(cells[k..])
    ensures Without(cells[k..], 0) == cells[k + 1..]
  {
    assert cells[k..][1..] == cells[k + 1..];
  }

  lemma WrappedCount(wraps: nat, size: nat)
    requires size < 0x1_0000_0000
    ensures (wraps * 0x1_0000_0000 + size) % 0x1_0000_0000 == size
  {
  }

  /** The list variable, the memory of its nodes, and the log of what was done to them. */
  class List<P(0)> {
    const blank: P
    var mem: map<Addr, Node<P>>
    var head: Addr
    var log: seq<Event>
    ghost var cells: seq<Cell<P>>
    ghost var place: map<Addr, nat>

    ghost predicate Valid()
      reads this
    {
      Linked(mem, head, cells, place)
    }

    ghost function Abs(): State<P>
      reads this
    {
      State(cells, log)
    }

    /** `elem` is the node at position `k`, or null past the end. */
    ghost predicate Reaches(elem: Addr, k: nat)
      reads this
    {
      && k <= |cells|
      && elem == AddrAt(cells, k)
      && (k < |cells| ==> LinkAt(mem, cells, place, k) && elem != NULL)
    }

    lemma ReachesAt(k: nat)
      requires Valid() && k <= |cells|
      ensures Reaches(AddrAt(cells, k), k)
    {
      assert k < |cells| ==> LinkAt(mem, cells, place, k);
    }

    /** A node's address leads to its position. */
    lemma FoundAt(k: nat)
      requires Valid() && k < |cells|
      ensures First(cells, IsNode(cells[k].addr), 0) == k
    {
      forall i | 0 <= i < k
        ensures !Holds(IsNode(cells[k].addr), i, cells[i])
      {
        ReachesAt(i);
        ReachesAt(k);
      }
      FirstIs(cells, IsNode(cells[k].addr), k);
    }

    constructor (blank: P)
      ensures Valid() && Abs() == State([], []) && this.blank == blank
    {
      this.blank := blank;
      mem, head, log, cells, place := map[], NULL, [], [], map[];
    }

    /** `artik_list_end`. */
    method End() returns (elem: Addr)
      requires Valid()
      ensures elem == if cells == [] then NULL else cells[|cells| - 1].addr
    {
      elem := head;
      ghost var k := 0;
      while elem != NULL && mem[elem].next != NULL
        invariant Reaches(elem, k) && (cells != [] ==> k < |cells|)
        decreases |cells| - k
      {
        elem := mem[elem].next;
        k := k + 1;
      }
      if elem != NULL {
        ReachesAt(k + 1);
      }
    }

    /** `artik_list_add`; `block` is what `malloc` returned. */
    method Add(handle: Addr, block: Addr) returns (elem: Addr)
      requires Valid() && (block != NULL ==> block !in mem)
      modifies this
      ensures Valid() && elem == block
      ensures block == NULL ==> Abs() == old(Abs())
      ensures block != NULL ==> Abs() == Apply(old(Abs()),
                Op.Add(Cell(block, if handle != NULL then handle else block, false, NULL, blank)))
      ensures block != NULL ==>
        && cells == old(cells) + [Cell(block, if handle != NULL then handle else block, false, NULL, blank)]
        && Loses(mem, block, old(mem))
    {
      elem := End();
      if block == NULL {
        return NULL;
      }
      ReachesAt(if cells == [] then 0 else |cells| - 1);
      ghost var c := Cell(block, if handle != NULL then handle else block, false, NULL, blank);
      AppendKeepsLinked(mem, head, cells, place, c);
      ghost var mem' := Relinked(mem, elem, block)[block := NodeOf(c, NULL)];
      if elem != NULL {
        mem := mem[elem := mem[elem].(next := block)];
      } else {
        head := block;
      }
      mem := mem[block := Node(NULL, if handle != NULL then handle else block, false, NULL, blank)];
      assert mem == mem';
      log := log + [Alloc(block)];
      cells, place := cells + [c], place[block := |cells|];
      elem := block;
    }

    /** What a user of the list does to a node it was given: set the fields that are its own. */
    method SetFields(elem: Addr, clear: bool, data: Addr, payload: P)
      requires Valid() && elem in mem
      modifies this`mem, this`cells
      ensures Valid() && Abs() == Apply(old(Abs()), Op.SetFields(elem, clear, data, payload))
      ensures mem == old(mem)[elem := old(mem)[elem].(clear := clear, data := data, payload := payload)]
    {
      ghost var k := place[elem];
      ReachesAt(k);
      FoundAt(k);
      FillKeepsLinked(mem, head, cells, place, k, Fill(cells[k], clear, data, payload));
      mem := mem[elem := mem[elem].(clear := clear, data := data, payload := payload)];
      cells := cells[k := Fill(cells[k], clear, data, payload)];
    }

    /** `artik_list_size`, with its 32-bit counter. */
    method Size() returns (size: nat)
      requires Valid()
      ensures size == |cells| % 0x1_0000_0000 <= |cells|
    {
      var elem := head;
      ghost var k, wraps := 0, 0;
      size := 0;
      while elem != NULL
        invariant Reaches(elem, k)
        invariant 0 <= size < 0x1_0000_0000 && k == wraps * 0x1_0000_0000 + size && wraps >= 0
        decreases |cells| - k
      {
        size := size + 1;
        if size == 0x1_0000_0000 {
          size, wraps := 0, wraps + 1;
        }
        elem := mem[elem].next;
        k := k + 1;
      }
      WrappedCount(wraps, size);
    }

    /** The end of every delete, first half: memory and head once `elem` is out of the chain. */
    method Detach(prev: Addr, elem: Addr, ghost k: nat)
      requires Valid() && k < |cells| && elem == cells[k].addr && prev == Before(cells, k)
      modifies this`mem, this`head
      ensures prev != NULL ==> prev in old(mem)
      ensures mem == Relinked(old(mem), prev, AddrAt(cells, k + 1))
      ensures head == AddrAt(Without(cells, k), 0)
    {
      ReachesAt(0);
      ReachesAt(k);
      ReachesAt(if k > 0 then k - 1 else 0);
      if prev != NULL {
        mem := mem[prev := mem[prev].(next := mem[elem].next)];
      }
      if elem == head {
        head := mem[elem].next;
      }
    }

    /** Second half: call `clear` if there is one, free the data if there is any, free the node. */
    method Release(elem: Addr)
      requires elem in mem
      modifies this`mem, this`log
      ensures mem == old(mem) - {elem}
      ensures log == old(log) + Released(old(View(elem)))
    {
      var events := [];
      if mem[elem].clear {
        events := [Clear(elem)];
      }
      if mem[elem].data != NULL {
        events := events + [FreeData(mem[elem].data)];
      }
      mem, log := mem - {elem}, log + (events + [Free(elem)]);
    }

    method Unlink(prev: Addr, elem: Addr, ghost k: nat)
      requires Valid() && k < |cells| && elem == cells[k].addr && prev == Before(cells, k)
      modifies this
      ensures Valid()
      ensures cells == Without(old(cells), k) && log == old(log) + Released(old(cells)[k])
      ensures Loses(old(mem), elem, mem)
    {
      UnlinkKeepsLinked(mem, head, cells, place, k);
      ReachesAt(k);
      ReachesAt(if k > 0 then k - 1 else 0);
      Detach(prev, elem, k);
      assert View(elem) == cells[k];
      Release(elem);
      cells, place := Without(cells, k), WithoutPlace(place, k);
    }

    /** `artik_list_delete_node`. */
    method DeleteNode(node: Addr) returns (ret: Error)
      requires Valid()
      modifies this
      ensures Valid() && Abs() == RemoveFirst(old(Abs()), IsNode(node))
      ensures ret == if First(old(cells), IsNode(node), 0) == |old(cells)| then E_BAD_ARGS else S_OK
      ensures Deletes(old(mem), old(cells), (c: Cell<P>) => c.addr == node, ret, mem)
    {
      FirstInMemory(mem, head, cells, place, IsNode(node), (c: Cell<P>) => c.addr == node);
      forall i | 0 <= i < |cells| ensures cells[i].addr != NULL {
        ReachesAt(i);
      }
      if head == NULL || node == NULL {
        FirstIs(cells, IsNode(node), |cells|);
        return E_BAD_ARGS;
      }
      var elem, prev := head, NULL;
      ghost var k := 0;
      while elem != NULL && elem != node
        invariant Reaches(elem, k) && prev == Before(cells, k)
        invariant forall i :: 0 <= i < k ==> !Holds(IsNode(node), i, cells[i])
        decreases |cells| - k
      {
        prev := elem;
        elem := mem[elem].next;
        k := k + 1;
      }
      FirstIs(cells, IsNode(node), k);
      if elem == NULL {
        return E_BAD_ARGS;
      }
      Unlink(prev, elem, k);
      return S_OK;
    }

    /** `artik_list_delete_handle`. */
    method DeleteHandle(handle: Addr) returns (ret: Error)
      requires Valid()
      modifies this
      ensures Valid() && Abs() == RemoveFirst(old(Abs()), HasHandle(handle))
      ensures ret == if First(old(cells), HasHandle(handle), 0) == |old(cells)| then E_BAD_ARGS else S_OK
      ensures Deletes(old(mem), old(cells), (c: Cell<P>) => handle != NULL && c.handle == handle, ret, mem)
    {
      FirstInMemory(mem, head, cells, place, HasHandle(handle), (c: Cell<P>) => handle != NULL && c.handle == handle);
      ReachesAt(0);
      if head == NULL || handle == NULL {
        FirstIs(cells, HasHandle(handle), |cells|);
        return E_BAD_ARGS;
      }
      var elem, prev := head, NULL;
      ghost var k := 0;
      while elem != NULL && mem[elem].handle != handle
        invariant Reaches(elem, k) && prev == Before(cells, k)
        invariant forall i :: 0 <= i < k ==> !Holds(HasHandle(handle), i, cells[i])
        decreases |cells| - k
      {
        prev := elem;
        elem := mem[elem].next;
        k := k + 1;
      }
      FirstIs(cells, HasHandle(handle), k);
      if elem == NULL {
        return E_BAD_ARGS;
      }
      Unlink(prev, elem, k);
      return S_OK;
    }

    /** `artik_list_delete_pos`. */
    method DeletePos(pos: nat) returns (ret: Error)
      requires Valid()
      modifies this
      ensures Valid() && Abs() == RemoveFirst(old(Abs()), AtPos(pos, |old(cells)| % 0x1_0000_0000))
      ensures ret == if First(old(cells), AtPos(pos, |old(cells)| % 0x1_0000_0000), 0) == |old(cells)|
                     then E_BAD_ARGS else S_OK
      ensures ret == if pos < |old(cells)| % 0x1_0000_0000 then S_OK else E_BAD_ARGS
      ensures if ret == S_OK then pos < |old(cells)| && Loses(old(mem), old(cells)[pos].addr, mem) else mem == old(mem)
    {
      var size := Size();
      ReachesAt(0);
      if head == NULL || pos >= size {
        FirstIs(cells, AtPos(pos, size), |cells|);
        return E_BAD_ARGS;
      }
      var elem, prev, left := head, NULL, pos;
      while elem != NULL && left > 0
        invariant 0 <= left <= pos < |cells| && Reaches(elem, pos - left)
        invariant prev == Before(cells, pos - left)
        decreases left
      {
        prev := elem;
        elem := mem[elem].next;
        left := left - 1;
      }
      FirstIs(cells, AtPos(pos, size), pos);
      Unlink(prev, elem, pos);
      return S_OK;
    }

    /** The node that a check function is handed. */
    function View(elem: Addr): Cell<P>
      requires elem in mem
      reads this
    {
      CellAt(mem, elem)
    }

    /** `artik_list_delete_check`. */
    method DeleteCheck(check: Cell<P> -> bool) returns (ret: Error)
      requires Valid()
      modifies this
      ensures Valid() && Abs() == RemoveFirst(old(Abs()), Passes(check))
      ensures ret == if First(old(cells), Passes(check), 0) == |old(cells)| then E_BAD_ARGS else S_OK
      ensures Deletes(old(mem), old(cells), check, ret, mem)
    {
      FirstInMemory(mem, head, cells, place, Passes(check), check);
      var elem, prev := head, NULL;
      ghost var k := 0;
      while elem != NULL && !check(View(elem))
        invariant Reaches(elem, k) && prev == Before(cells, k)
        invariant forall i :: 0 <= i < k ==> !Holds(Passes(check), i, cells[i])
        decreases |cells| - k
      {
        prev := elem;
        elem := mem[elem].next;
        k := k + 1;
      }
      FirstIs(cells, Passes(check), k);
      if elem == NULL {
        return E_BAD_ARGS;
      }
      Unlink(prev, elem, k);
      return S_OK;
    }

    /** `artik_list_delete_all`. */
    method DeleteAll() returns (ret: Error)
      requires Valid()
      modifies this
      ensures Valid() && Abs() == Apply(old(Abs()), Op.DeleteAll)
      ensures ret == if old(cells) == [] then E_BAD_ARGS else S_OK
    {
      ReachesAt(0);
      if head == NULL {
        return E_BAD_ARGS;
      }
      ghost var cells0, log0, done := cells, log, 0;
      while head != NULL
        invariant Valid() && done <= |cells0| && cells == cells0[done..]
        invariant log + ReleasedAll(cells) == log0 + ReleasedAll(cells0)
        decreases |cells|
      {
        ReachesAt(0);
        DrainStep(log, cells0, done);
        Unlink(NULL, head, 0);
        done := done + 1;
      }
      ReachesAt(0);
      return S_OK;
    }

    /** `artik_list_get_by_handle`. */
    method GetByHandle(handle: Addr) returns (elem: Addr)
      requires Valid()
      ensures elem == AddrAt(cells, First(cells, HasHandle(handle), 0))
      ensures Finds(mem, cells, (c: Cell<P>) => handle != NULL && c.handle == handle, elem)
    {
      FirstInMemory(mem, head, cells, place, HasHandle(handle), (c: Cell<P>) => handle != NULL && c.handle == handle);
      elem := head;
      ReachesAt(0);
      if elem == NULL || handle == NULL {
        FirstIs(cells, HasHandle(handle), |cells|);
        return NULL;
      }
      ghost var k := 0;
      while elem != NULL && mem[elem].handle != handle
        invariant Reaches(elem, k)
        invariant forall i :: 0 <= i < k ==> !Holds(HasHandle(handle), i, cells[i])
        decreases |cells| - k
      {
        elem := mem[elem].next;
        k := k + 1;
      }
      FirstIs(cells, HasHandle(handle), k);
    }

    /** `artik_list_get_by_pos`. */
    method GetByPos(pos: nat) returns (elem: Addr)
      requires Valid()
      ensures elem == AddrAt(cells, First(cells, AtPos(pos, |cells| % 0x1_0000_0000), 0))
      ensures elem == if pos < |cells| % 0x1_0000_0000 then cells[pos].addr else NULL
    {
      var size := Size();
      ReachesAt(0);
      if head == NULL || pos >= size {
        FirstIs(cells, AtPos(pos, size), |cells|);
        return NULL;
      }
      elem := head;
      var i := 0;
      while elem != NULL && i < pos
        invariant 0 <= i <= pos < |cells| && Reaches(elem, i)
        decreases pos - i
      {
        i := i + 1;
        elem := mem[elem].next;
      }
      FirstIs(cells, AtPos(pos, size), pos);
    }

    /** `artik_list_get_by_check`. */
    method GetByCheck(check: Cell<P> -> bool) returns (elem: Addr)
      requires Valid()
      ensures elem == AddrAt(cells, First(cells, Passes(check), 0))
      ensures Finds(mem, cells, check, elem)
    {
      FirstInMemory(mem, head, cells, place, Passes(check), check);
      elem := head;
      ghost var k := 0;
      while elem != NULL && !check(View(elem))
        invariant Reaches(elem, k)
        invariant forall i :: 0 <= i < k ==> !Holds(Passes(check), i, cells[i])
        decreases |cells| - k
      {
        elem := mem[elem].next;
        k := k + 1;
      }
      FirstIs(cells, Passes(check), k);
    }
  }
}
