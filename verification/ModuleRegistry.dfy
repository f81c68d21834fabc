/** The reference-counted module registry of src/modules/base/module/linux_module.c, built on
    the linked list. Every operation runs under one lock, so a run is a sequence of
    operations. Loading and allocation succeed. */
module ModuleRegistry {
  import opened ArtikTypes
  import opened ArtikList

  const MAX_MODULE_NAME := 32
  const NULL_MODULE: int := 0

  /** `artik_module_info`: a shared name string, the library handle, the module's operations. */
  datatype Info = Info(name: Addr, handle: Addr, symbol: Addr)

  const BLANK := Info(NULL, NULL, NULL)

  datatype Entry = Entry(name: string, library: string)

  /** The platform's module table and what the dynamic loader answers: the handle of a
      library, the address of a module's operations, and the first word stored there. */
  datatype Env = Env(table: seq<Entry>, handleOf: string -> Addr, symbolOf: string -> Addr, wordOf: Addr -> int)

  /** `dlopen` and `dlclose` calls, each on behalf of a module. */
  datatype Load = Open(name: string, handle: Addr) | Close(name: string, handle: Addr)

  datatype Reg = Reg(cells: seq<Cell<Info>>, names: map<Addr, string>, log: seq<Load>)

  const EMPTY := Reg([], map[], [])

  // ---------------------------------------------------------------- string comparison

  /** `strncmp(a, b, n) == 0` on strings without embedded terminators. */
  predicate StrnEq(a: string, b: string, n: nat) {
    if n <= |a| && n <= |b| then a[..n] == b[..n] else a == b
  }

  /** The character that C reads at an index, the terminator past the end. */
  function CharAt(s: string, i: nat): char {
    if i < |s| then s[i] else '\0'
  }

  /** Read as `strncmp` reads: no difference in the first `n` characters, terminators included. */
  lemma StrnEqMeans(a: string, b: string, n: nat)
    requires '\0' !in a && '\0' !in b
    ensures StrnEq(a, b, n) <==> forall i :: 0 <= i < n ==> CharAt(a, i) == CharAt(b, i)
  {
    var alike := forall i :: 0 <= i < n ==> CharAt(a, i) == CharAt(b, i);
    if alike {
      if |a| < n {
        assert CharAt(a, |a|) == CharAt(b, |a|);
      }
      if |b| < n {
        assert CharAt(a, |b|) == CharAt(b, |b|);
      }
      var m := if n <= |a| then n else |a|;
      assert forall i :: 0 <= i < m && i < |b| ==> a[i] == CharAt(a, i) && b[i] == CharAt(b, i);
    }
    if StrnEq(a, b, n) && n <= |a| && n <= |b| {
      assert forall i :: 0 <= i < n ==> a[i] == a[..n][i] == b[..n][i] == b[i];
    }
  }

  /** `artik_compare_module_name`: compares no more than the length of the target. */
  function ByName(names: map<Addr, string>, target: string): Cell<Info> -> bool {
    (c: Cell<Info>) => c.payload.name in names && StrnEq(names[c.payload.name], target, |target|)
  }

  /** `artik_compare_module_ops`: compares the first word behind the two pointers. */
  function ByOps(env: Env, word: int): Cell<Info> -> bool {
    (c: Cell<Info>) => env.wordOf(c.payload.symbol) == word
  }

  /** A node is taken for the module asked for exactly if its name begins with that module's. */
  lemma FoundByName(names: map<Addr, string>, target: string, c: Cell<Info>)
    ensures ByName(names, target)(c) <==>
      c.payload.name in names && |target| <= |names[c.payload.name]| && names[c.payload.name][..|target|] == target
  {
  }

  function FindEntry(table: seq<Entry>, name: string, i: nat): (r: nat)
    requires i <= |table|
    ensures i <= r <= |table|
    ensures r < |table| ==> StrnEq(table[r].name, name, MAX_MODULE_NAME)
    ensures forall j :: i <= j < r ==> !StrnEq(table[j].name, name, MAX_MODULE_NAME)
    decreases |table| - i
  {
    if i == |table| || StrnEq(table[i].name, name, MAX_MODULE_NAME) then i else FindEntry(table, name, i + 1)
  }

  /** The table lookup: the first entry whose name agrees with the one asked for in 32 characters. */
  lemma EntryFound(table: seq<Entry>, name: string, k: nat)
    requires '\0' !in name && forall i :: 0 <= i < |table| ==> '\0' !in table[i].name
    requires k < |table| && forall i :: 0 <= i < 32 ==> CharAt(table[k].name, i) == CharAt(name, i)
    requires forall j :: 0 <= j < k ==> exists i :: 0 <= i < 32 && CharAt(table[j].name, i) != CharAt(name, i)
    ensures FindEntry(table, name, 0) == k
  {
    forall j | 0 <= j < |table|
      ensures StrnEq(table[j].name, name, 32) <==> forall i :: 0 <= i < 32 ==> CharAt(table[j].name, i) == CharAt(name, i)
    {
      StrnEqMeans(table[j].name, name, 32);
    }
  }

  function TextAt(names: map<Addr, string>, a: Addr): string {
    if a in names then names[a] else ""
  }

  // ---------------------------------------------------------------- the code's steps

  /** `os_request_api_module`; `block` and `text` are the addresses that `malloc` returns for
      the node and, if it is needed, for the name. */
  function Request(env: Env, s: Reg, name: string, block: Addr, text: Addr): (Reg, int) {
    var e := FindEntry(env.table, name, 0);
    if e == |env.table| then (s, NULL_MODULE)
    else
      var k := First(s.cells, Passes(ByName(s.names, name)), 0);
      if k < |s.cells| then
        var info := s.cells[k].payload;
        (s.(cells := s.cells + [Cell(block, block, false, NULL, info)]), info.symbol)
      else
        var info := Info(text, env.handleOf(env.table[e].library), env.symbolOf(name));
        (Reg(s.cells + [Cell(block, block, false, NULL, info)], s.names[text := name],
             s.log + [Open(name, info.handle)]), info.symbol)
  }

  /** `os_release_api_module`; `word` is the word that the caller's pointer leads to. */
  function Release(env: Env, s: Reg, word: int): (Reg, Error) {
    var test := Passes(ByOps(env, word));
    var k := First(s.cells, test, 0);
    if k == |s.cells| then (s, E_BAD_ARGS)
    else
      var info, rest := s.cells[k].payload, Without(s.cells, k);
      if First(rest, test, 0) < |rest| then (s.(cells := rest), S_OK)
      else
        (Reg(rest, s.names - {info.name}, s.log + [Close(TextAt(s.names, info.name), info.handle)]), S_OK)
  }

  datatype Op = Req(name: string, block: Addr, text: Addr) | Rel(word: int)

  datatype Answer = Module(symbol: int) | Status(error: Error)

  function Apply(env: Env, s: Reg, op: Op): (Reg, Answer) {
    match op
    case Req(name, block, text) => var (s', m) := Request(env, s, name, block, text); (s', Module(m))
    case Rel(word) => var (s', e) := Release(env, s, word); (s', Status(e))
  }

  function RunOps(env: Env, ops: seq<Op>): Reg {
    if ops == [] then EMPTY else Apply(env, RunOps(env, ops[..|ops| - 1]), ops[|ops| - 1]).0
  }

  /** `malloc` returns addresses that are not in use. */
  ghost predicate Allowed(s: Reg, op: Op) {
    op.Req? ==> op.text != NULL && op.text !in s.names
  }

  ghost predicate Possible(env: Env, ops: seq<Op>) {
    forall k :: 0 <= k < |ops| ==> Allowed(RunOps(env, ops[..k]), ops[k])
  }

  // ---------------------------------------------------------------- the reference counters

  /** What the registry is for: a counter per module, a load at 0 to 1 and an unload at 1 to 0. */
  datatype Counters = Counters(count: map<string, nat>, log: seq<Load>)

  function Get(c: Counters, m: string): nat {
    if m in c.count then c.count[m] else 0
  }

  ghost predicate InTable(env: Env, m: string) {
    exists i :: 0 <= i < |env.table| && env.table[i].name == m
  }

  ghost function HandleOf(env: Env, m: string): Addr
    requires InTable(env, m)
  {
    var i :| 0 <= i < |env.table| && env.table[i].name == m;
    env.handleOf(env.table[i].library)
  }

  ghost function WordOf(env: Env, m: string): int {
    env.wordOf(env.symbolOf(m))
  }

  /** The held module whose operations begin with this word. */
  ghost predicate Answers(env: Env, c: Counters, m: string, word: int) {
    InTable(env, m) && Get(c, m) > 0 && WordOf(env, m) == word
  }

  ghost function Count(env: Env, c: Counters, op: Op): (Counters, Answer) {
    match op
    case Req(m, _, _) =>
      if !InTable(env, m) then (c, Module(NULL_MODULE))
      else
        var log := if Get(c, m) == 0 then c.log + [Open(m, HandleOf(env, m))] else c.log;
        (Counters(c.count[m := Get(c, m) + 1], log), Module(env.symbolOf(m)))
    case Rel(word) =>
      if exists m :: Answers(env, c, m, word) then
        var m :| Answers(env, c, m, word);
        var log := if Get(c, m) == 1 then c.log + [Close(m, HandleOf(env, m))] else c.log;
        (Counters(c.count[m := Get(c, m) - 1], log), Status(S_OK))
      else (c, Status(E_BAD_ARGS))
  }

  ghost function RunCounters(env: Env, ops: seq<Op>): Counters {
    if ops == [] then Counters(map[], []) else Count(env, RunCounters(env, ops[..|ops| - 1]), ops[|ops| - 1]).0
  }

  // ---------------------------------------------------------------- the refinement

  /** No module name begins another. */
  ghost predicate PrefixFree(env: Env) {
    forall i, j :: 0 <= i < |env.table| && 0 <= j < |env.table| && i != j ==>
      !(env.table[i].name <= env.table[j].name)
  }

  /** Names stay below the comparison limit. */
  ghost predicate ShortNames(env: Env) {
    forall i :: 0 <= i < |env.table| ==> |env.table[i].name| < MAX_MODULE_NAME
  }

  ghost predicate DistinctNames(env: Env) {
    forall i, j :: 0 <= i < j < |env.table| ==> env.table[i].name != env.table[j].name
  }

  /** The operations of two modules never begin with the same word. */
  ghost predicate DistinctWords(env: Env) {
    forall m, n :: InTable(env, m) && InTable(env, n) && m != n ==> WordOf(env, m) != WordOf(env, n)
  }

  ghost predicate WellFormed(env: Env) {
    PrefixFree(env) && ShortNames(env) && DistinctWords(env)
  }

  ghost function ModuleAt(s: Reg, i: nat): string
    requires i < |s.cells|
  {
    TextAt(s.names, s.cells[i].payload.name)
  }

  /** A node carries a live name of a module of the table, and that module's library and operations. */
  ghost predicate Sound(env: Env, s: Reg, i: nat)
    requires i < |s.cells|
  {
    var info, m := s.cells[i].payload, ModuleAt(s, i);
    && info.name in s.names
    && InTable(env, m)
    && info.symbol == env.symbolOf(m)
    && info.handle == HandleOf(env, m)
  }

  ghost predicate Uses(s: Reg, a: Addr) {
    exists i :: 0 <= i < |s.cells| && s.cells[i].payload.name == a
  }

  /** No node refers to a freed name, a module has one name string, shared by its nodes, no name is lost. */
  ghost predicate Inv(env: Env, s: Reg) {
    && (forall i :: 0 <= i < |s.cells| ==> Sound(env, s, i))
    && (forall a, b :: a in s.names && b in s.names && s.names[a] == s.names[b] ==> a == b)
    && (forall a :: a in s.names ==> a != NULL && Uses(s, a))
  }

  ghost function Modules(s: Reg): seq<string> {
    seq(|s.cells|, i requires 0 <= i < |s.cells| => ModuleAt(s, i))
  }

  /** The registry stands for the counters: per module, as many nodes as the count. */
  ghost predicate Abstracts(env: Env, s: Reg, c: Counters) {
    && Inv(env, s)
    && s.log == c.log
    && forall m :: multiset(Modules(s))[m] == Get(c, m)
  }

  lemma TableLookup(env: Env, m: string)
    requires ShortNames(env) && DistinctNames(env)
    ensures FindEntry(env.table, m, 0) < |env.table| <==> InTable(env, m)
    ensures InTable(env, m) ==>
      var e := FindEntry(env.table, m, 0); env.table[e].name == m && HandleOf(env, m) == env.handleOf(env.table[e].library)
  {
    if InTable(env, m) {
      var i :| 0 <= i < |env.table| && env.table[i].name == m;
      assert StrnEq(env.table[i].name, m, MAX_MODULE_NAME);
    }
  }

  /** Under a prefix-free table, the prefix comparison finds exactly the nodes of the module asked for. */
  lemma NameTest(env: Env, s: Reg, m: string, i: nat)
    requires WellFormed(env) && Inv(env, s) && InTable(env, m) && i < |s.cells|
    ensures ByName(s.names, m)(s.cells[i]) <==> ModuleAt(s, i) == m
  {
    assert Sound(env, s, i);
    var n := ModuleAt(s, i);
    if StrnEq(n, m, |m|) {
      assert m <= n;
    }
  }

  lemma OpsTest(env: Env, s: Reg, m: string, i: nat)
    requires WellFormed(env) && Inv(env, s) && InTable(env, m) && i < |s.cells|
    ensures ByOps(env, WordOf(env, m))(s.cells[i]) <==> ModuleAt(s, i) == m
  {
    assert Sound(env, s, i);
  }

  lemma Held(s: Reg, m: string)
    ensures multiset(Modules(s))[m] > 0 <==> exists i :: 0 <= i < |s.cells| && ModuleAt(s, i) == m
  {
    var mods := Modules(s);
    assert m in multiset(mods) <==> m in mods;
    if i :| 0 <= i < |s.cells| && ModuleAt(s, i) == m {
      assert mods[i] == m;
    }
  }

  lemma ModulesSnoc(s: Reg, s': Reg, m: string)
    requires |s'.cells| == |s.cells| + 1
    requires forall i :: 0 <= i < |s.cells| ==> ModuleAt(s', i) == ModuleAt(s, i)
    requires ModuleAt(s', |s.cells|) == m
    ensures forall n :: multiset(Modules(s'))[n] == multiset(Modules(s))[n] + if n == m then 1 else 0
  {
    assert Modules(s') == Modules(s) + [m];
  }

  lemma OneOccurrenceLess(mods: seq<string>, k: nat)
    requires k < |mods|
    ensures forall n :: multiset(mods)[n] ==
              multiset(mods[..k] + mods[k + 1..])[n] + if n == mods[k] then 1 else 0
  {
    assert mods == mods[..k] + ([mods[k]] + mods[k + 1..]);
    assert multiset(mods) == multiset(mods[..k]) + (multiset{mods[k]} + multiset(mods[k + 1..]));
    assert multiset(mods[..k] + mods[k + 1..]) == multiset(mods[..k]) + multiset(mods[k + 1..]);
  }

  lemma ModulesWithout(s: Reg, s': Reg, k: nat)
    requires k < |s.cells| && s'.cells == Without(s.cells, k)
    requires forall i :: 0 <= i < |s'.cells| ==> ModuleAt(s', i) == ModuleAt(s, if i < k then i else i + 1)
    ensures forall n :: multiset(Modules(s))[n] == multiset(Modules(s'))[n] + if n == ModuleAt(s, k) then 1 else 0
  {
    var mods, rest := Modules(s), Modules(s');
    assert rest == mods[..k] + mods[k + 1..];
    OneOccurrenceLess(mods, k);
  }

  /** The request found a node of the module: the new node shares its name, library and operations. */
  lemma SharedNodeKeepsInv(env: Env, s: Reg, k: nat, s': Reg)
    requires Inv(env, s) && k < |s.cells| && s'.names == s.names
    requires |s'.cells| == |s.cells| + 1 && s'.cells[|s.cells|].payload == s.cells[k].payload
    requires forall i :: 0 <= i < |s.cells| ==> s'.cells[i] == s.cells[i]
    ensures Inv(env, s')
  {
    assert Sound(env, s, k);
    forall i | 0 <= i < |s'.cells|
      ensures Sound(env, s', i)
    {
      if i < |s.cells| {
        assert Sound(env, s, i);
      }
    }
    forall a | a in s'.names
      ensures Uses(s', a)
    {
      var i :| 0 <= i < |s.cells| && s.cells[i].payload.name == a;
      assert s'.cells[i].payload.name == a;
    }
  }

  /** The request found none: the new node owns the name just copied. */
  lemma FirstNodeKeepsInv(env: Env, s: Reg, m: string, text: Addr, s': Reg)
    requires Inv(env, s) && InTable(env, m) && text != NULL && text !in s.names && s'.names == s.names[text := m]
    requires forall i :: 0 <= i < |s.cells| ==> ModuleAt(s, i) != m
    requires |s'.cells| == |s.cells| + 1
    requires s'.cells[|s.cells|].payload == Info(text, HandleOf(env, m), env.symbolOf(m))
    requires forall i :: 0 <= i < |s.cells| ==> s'.cells[i] == s.cells[i]
    ensures Inv(env, s')
    ensures forall i :: 0 <= i < |s.cells| ==> ModuleAt(s', i) == ModuleAt(s, i)
  {
    forall i | 0 <= i < |s.cells|
      ensures Sound(env, s', i) && ModuleAt(s', i) == ModuleAt(s, i)
    {
      assert Sound(env, s, i);
    }
    forall a | a in s.names
      ensures Uses(s', a) && s.names[a] != m
    {
      var i :| 0 <= i < |s.cells| && s.cells[i].payload.name == a;
      assert s'.cells[i].payload.name == a && ModuleAt(s, i) == s.names[a];
    }
    assert s'.cells[|s.cells|].payload.name == text;
  }

  /** A request for a module of the table: one node more, and a load if it is the first. */
  lemma RequestKeeps(env: Env, s: Reg, m: string, block: Addr, text: Addr)
    requires WellFormed(env) && Inv(env, s) && InTable(env, m) && text != NULL && text !in s.names
    ensures var s' := Request(env, s, m, block, text).0;
      && Inv(env, s')
      && Request(env, s, m, block, text).1 == env.symbolOf(m)
      && (forall n :: multiset(Modules(s'))[n] == multiset(Modules(s))[n] + if n == m then 1 else 0)
      && s'.log == if multiset(Modules(s))[m] == 0 then s.log + [Open(m, HandleOf(env, m))] else s.log
  {
    TableLookup(env, m);
    NameSearch(env, s, m);
    Held(s, m);
    var k, s' := First(s.cells, Passes(ByName(s.names, m)), 0), Request(env, s, m, block, text).0;
    if k < |s.cells| {
      assert Sound(env, s, k);
      SharedNodeKeepsInv(env, s, k, s');
      ModulesSnoc(s, s', m);
    } else {
      FirstNodeKeepsInv(env, s, m, text, s');
      ModulesSnoc(s, s', m);
    }
  }

  lemma RequestRefines(env: Env, s: Reg, c: Counters, m: string, block: Addr, text: Addr)
    requires WellFormed(env) && Abstracts(env, s, c) && text != NULL && text !in s.names
    ensures var op := Req(m, block, text);
      && Abstracts(env, Apply(env, s, op).0, Count(env, c, op).0)
      && Apply(env, s, op).1 == Count(env, c, op).1
  {
    TableLookup(env, m);
    if InTable(env, m) {
      KnownRequestRefines(env, s, c, m, block, text);
    }
  }

  lemma KnownRequestRefines(env: Env, s: Reg, c: Counters, m: string, block: Addr, text: Addr)
    requires WellFormed(env) && Abstracts(env, s, c) && InTable(env, m) && text != NULL && text !in s.names
    ensures Abstracts(env, Request(env, s, m, block, text).0, Count(env, c, Req(m, block, text)).0)
    ensures Module(Request(env, s, m, block, text).1) == Count(env, c, Req(m, block, text)).1
  {
    CountRequest(env, c, m, block, text);
    RequestKeeps(env, s, m, block, text);
    OneMore(env, s, c, Request(env, s, m, block, text).0, Count(env, c, Req(m, block, text)).0, m,
      Open(m, HandleOf(env, m)));
  }

  lemma CountRequest(env: Env, c: Counters, m: string, block: Addr, text: Addr)
    requires InTable(env, m)
    ensures Count(env, c, Req(m, block, text)) ==
      (Counters(c.count[m := Get(c, m) + 1], if Get(c, m) == 0 then c.log + [Open(m, HandleOf(env, m))] else c.log),
       Module(env.symbolOf(m)))
  {
  }

  lemma OneMore(env: Env, s: Reg, c: Counters, s': Reg, c': Counters, m: string, e: Load)
    requires Abstracts(env, s, c) && Inv(env, s')
    requires s'.log == if multiset(Modules(s))[m] == 0 then s.log + [e] else s.log
    requires c'.log == if Get(c, m) == 0 then c.log + [e] else c.log
    requires forall n :: multiset(Modules(s'))[n] == multiset(Modules(s))[n] + if n == m then 1 else 0
    requires c'.count == c.count[m := Get(c, m) + 1]
    ensures Abstracts(env, s', c')
  {
  }

  /** The search by name stops at the first node of the module, or finds that there is none. */
  lemma NameSearch(env: Env, s: Reg, m: string)
    requires WellFormed(env) && Inv(env, s) && InTable(env, m)
    ensures var k := First(s.cells, Passes(ByName(s.names, m)), 0);
      if k < |s.cells| then ModuleAt(s, k) == m else forall i :: 0 <= i < |s.cells| ==> ModuleAt(s, i) != m
  {
    var test := Passes(ByName(s.names, m));
    var k := First(s.cells, test, 0);
    if k < |s.cells| {
      assert Holds(test, k, s.cells[k]);
      NameTest(env, s, m, k);
    } else {
      forall i | 0 <= i < |s.cells|
        ensures ModuleAt(s, i) != m
      {
        assert !Holds(test, i, s.cells[i]);
        NameTest(env, s, m, i);
      }
    }
  }

  /** Taking away a node, and its name with it when `names` says so. */
  lemma WithoutKeepsInv(env: Env, s: Reg, k: nat, s': Reg)
    requires Inv(env, s) && k < |s.cells| && s'.cells == Without(s.cells, k)
    requires
      || (s'.names == s.names && exists j :: 0 <= j < |s.cells| && j != k && ModuleAt(s, j) == ModuleAt(s, k))
      || (s'.names == s.names - {s.cells[k].payload.name} &&
          forall j :: 0 <= j < |s.cells| && j != k ==> ModuleAt(s, j) != ModuleAt(s, k))
    ensures Inv(env, s')
    ensures forall n :: multiset(Modules(s))[n] == multiset(Modules(s'))[n] + if n == ModuleAt(s, k) then 1 else 0
  {
    assert Sound(env, s, k);
    forall i | 0 <= i < |s'.cells|
      ensures Sound(env, s', i) && ModuleAt(s', i) == ModuleAt(s, if i < k then i else i + 1)
    {
      assert Sound(env, s, if i < k then i else i + 1);
    }
    forall a | a in s'.names
      ensures Uses(s', a)
    {
      StillUsed(env, s, k, s', a);
    }
    ModulesWithout(s, s', k);
  }

  lemma StillUsed(env: Env, s: Reg, k: nat, s': Reg, a: Addr)
    requires Inv(env, s) && k < |s.cells| && s'.cells == Without(s.cells, k) && a in s.names
    requires s.cells[k].payload.name == a ==>
      exists j :: 0 <= j < |s.cells| && j != k && ModuleAt(s, j) == ModuleAt(s, k)
    ensures Uses(s', a)
  {
    var i :| 0 <= i < |s.cells| && s.cells[i].payload.name == a;
    if i == k {
      var j :| 0 <= j < |s.cells| && j != k && ModuleAt(s, j) == ModuleAt(s, k);
      assert Sound(env, s, j) && Sound(env, s, k);
      assert s'.cells[if j < k then j else j - 1].payload.name == a;
    } else {
      assert s'.cells[if i < k then i else i - 1].payload.name == a;
    }
  }

  lemma ReleaseRefines(env: Env, s: Reg, c: Counters, word: int)
    requires WellFormed(env) && Abstracts(env, s, c)
    ensures Abstracts(env, Apply(env, s, Rel(word)).0, Count(env, c, Rel(word)).0)
    ensures Apply(env, s, Rel(word)).1 == Count(env, c, Rel(word)).1
  {
    var test := Passes(ByOps(env, word));
    var k := First(s.cells, test, 0);
    if k == |s.cells| {
      forall m
        ensures !Answers(env, c, m, word)
      {
        Held(s, m);
        if Answers(env, c, m, word) {
          var i :| 0 <= i < |s.cells| && ModuleAt(s, i) == m;
          OpsTest(env, s, m, i);
          assert Holds(test, i, s.cells[i]);
        }
      }
    } else {
      ReleaseFoundRefines(env, s, c, word, k);
    }
  }

  /** What the counters do when module `m` answers to the word released. */
  lemma CountRelease(env: Env, c: Counters, word: int, m: string)
    requires WellFormed(env) && Answers(env, c, m, word)
    ensures Count(env, c, Rel(word)) ==
      (Counters(c.count[m := Get(c, m) - 1], if Get(c, m) == 1 then c.log + [Close(m, HandleOf(env, m))] else c.log),
       Status(S_OK))
  {
    assert forall n :: Answers(env, c, n, word) ==> n == m;
  }

  lemma ReleaseFoundRefines(env: Env, s: Reg, c: Counters, word: int, k: nat)
    requires WellFormed(env) && Abstracts(env, s, c)
    requires k == First(s.cells, Passes(ByOps(env, word)), 0) < |s.cells|
    ensures Abstracts(env, Apply(env, s, Rel(word)).0, Count(env, c, Rel(word)).0)
    ensures Apply(env, s, Rel(word)).1 == Count(env, c, Rel(word)).1
  {
    var m := ModuleAt(s, k);
    assert Sound(env, s, k) && WordOf(env, m) == word by {
      assert Holds(Passes(ByOps(env, word)), k, s.cells[k]);
    }
    Held(s, m);
    CountRelease(env, c, word, m);
    ReleaseKeeps(env, s, word, k);
    OneLess(env, s, c, Release(env, s, word).0, Count(env, c, Rel(word)).0, m, Close(m, HandleOf(env, m)));
  }

  /** A release that finds a node: the module loses one node, and with the last one its
      name and its library. */
  lemma ReleaseKeeps(env: Env, s: Reg, word: int, k: nat)
    requires WellFormed(env) && Inv(env, s)
    requires k == First(s.cells, Passes(ByOps(env, word)), 0) < |s.cells|
    requires WordOf(env, ModuleAt(s, k)) == word && InTable(env, ModuleAt(s, k))
    ensures var s', m := Release(env, s, word).0, ModuleAt(s, k);
      && Inv(env, s')
      && (forall n :: multiset(Modules(s))[n] == multiset(Modules(s'))[n] + if n == m then 1 else 0)
      && s'.log == if multiset(Modules(s))[m] == 1 then s.log + [Close(m, HandleOf(env, m))] else s.log
  {
    var s', m, rest := Release(env, s, word).0, ModuleAt(s, k), Without(s.cells, k);
    assert Sound(env, s, k);
    OpsSearch(env, s, m, k);
    var j := First(rest, Passes(ByOps(env, word)), 0);
    if j < |rest| {
      ReleaseOfShared(env, s, k, if j < k then j else j + 1);
    } else {
      ReleaseOfLast(env, s, k, s'.log);
    }
  }

  lemma ReleaseOfShared(env: Env, s: Reg, k: nat, j: nat)
    requires Inv(env, s) && k < |s.cells| && j < |s.cells| && j != k && ModuleAt(s, j) == ModuleAt(s, k)
    ensures var s', m := s.(cells := Without(s.cells, k)), ModuleAt(s, k);
      && Inv(env, s')
      && (forall n :: multiset(Modules(s))[n] == multiset(Modules(s'))[n] + if n == m then 1 else 0)
      && multiset(Modules(s))[m] != 1
  {
    WithoutKeepsInv(env, s, k, s.(cells := Without(s.cells, k)));
    LastOrNot(s, k, j);
  }

  lemma ReleaseOfLast(env: Env, s: Reg, k: nat, log: seq<Load>)
    requires Inv(env, s) && k < |s.cells|
    requires forall i :: 0 <= i < |s.cells| && i != k ==> ModuleAt(s, i) != ModuleAt(s, k)
    ensures var s', m := Reg(Without(s.cells, k), s.names - {s.cells[k].payload.name}, log), ModuleAt(s, k);
      && Inv(env, s')
      && (forall n :: multiset(Modules(s))[n] == multiset(Modules(s'))[n] + if n == m then 1 else 0)
      && multiset(Modules(s))[m] == 1
  {
    WithoutKeepsInv(env, s, k, Reg(Without(s.cells, k), s.names - {s.cells[k].payload.name}, log));
    LastOrNot(s, k, k);
  }

  /** A module has more than one node exactly when there is another beside `k`. */
  lemma LastOrNot(s: Reg, k: nat, j: nat)
    requires k < |s.cells| && j < |s.cells| && ModuleAt(s, j) == ModuleAt(s, k)
    requires j == k ==> forall i :: 0 <= i < |s.cells| && i != k ==> ModuleAt(s, i) != ModuleAt(s, k)
    ensures multiset(Modules(s))[ModuleAt(s, k)] == 1 <==> j == k
  {
    var mods := Modules(s);
    OnlyOccurrence(mods, k);
    if j < k {
      assert mods[..k][j] == mods[k];
    } else if j > k {
      assert mods[k + 1..][j - k - 1] == mods[k];
    }
  }

  lemma OnlyOccurrence(mods: seq<string>, k: nat)
    requires k < |mods|
    ensures multiset(mods)[mods[k]] == 1 <==> mods[k] !in mods[..k] && mods[k] !in mods[k + 1..]
  {
    var left, right := mods[..k], mods[k + 1..];
    assert mods == left + ([mods[k]] + right);
    assert multiset(mods) == multiset(left) + (multiset{mods[k]} + multiset(right));
    assert mods[k] in left <==> mods[k] in multiset(left);
    assert mods[k] in right <==> mods[k] in multiset(right);
  }

  /** After the deletion, the second search tells whether another node of the module is left. */
  lemma OpsSearch(env: Env, s: Reg, m: string, k: nat)
    requires WellFormed(env) && Inv(env, s) && k < |s.cells| && ModuleAt(s, k) == m && InTable(env, m)
    ensures var rest := Without(s.cells, k);
      var j := First(rest, Passes(ByOps(env, WordOf(env, m))), 0);
      if j < |rest| then ModuleAt(s, if j < k then j else j + 1) == m
      else forall i :: 0 <= i < |s.cells| && i != k ==> ModuleAt(s, i) != m
  {
    var test, rest := Passes(ByOps(env, WordOf(env, m))), Without(s.cells, k);
    var j := First(rest, test, 0);
    if j < |rest| {
      assert Holds(test, j, rest[j]);
      OpsTest(env, s, m, if j < k then j else j + 1);
    } else {
      forall i | 0 <= i < |s.cells| && i != k
        ensures ModuleAt(s, i) != m
      {
        OpsTest(env, s, m, i);
        var i' := if i < k then i else i - 1;
        assert !Holds(test, i', rest[i']);
      }
    }
  }

  lemma OneLess(env: Env, s: Reg, c: Counters, s': Reg, c': Counters, m: string, e: Load)
    requires Abstracts(env, s, c) && Inv(env, s')
    requires s'.log == if multiset(Modules(s))[m] == 1 then s.log + [e] else s.log
    requires c'.log == if Get(c, m) == 1 then c.log + [e] else c.log
    requires forall n :: multiset(Modules(s))[n] == multiset(Modules(s'))[n] + if n == m then 1 else 0
    requires Get(c, m) > 0 && c'.count == c.count[m := Get(c, m) - 1]
    ensures Abstracts(env, s', c')
  {
  }

  /** Over every run of requests and releases, with a well-formed table: each answer is the
      reference counters' answer, the loads and unloads are theirs, a module has as many
      nodes as its count, and no node refers to a freed name. */
  lemma {:induction false} RegistryCountsReferences(env: Env, ops: seq<Op>)
    requires WellFormed(env) && Possible(env, ops)
    ensures Abstracts(env, RunOps(env, ops), RunCounters(env, ops))
    ensures forall op: Op :: Allowed(RunOps(env, ops), op) ==>
              Apply(env, RunOps(env, ops), op).1 == Count(env, RunCounters(env, ops), op).1
  {
    if ops != [] {
      var before, op := ops[..|ops| - 1], ops[|ops| - 1];
      assert forall k :: 0 <= k < |before| ==> before[..k] == ops[..k];
      RegistryCountsReferences(env, before);
      StepRefines(env, RunOps(env, before), RunCounters(env, before), op);
    }
    forall op: Op | Allowed(RunOps(env, ops), op)
      ensures Apply(env, RunOps(env, ops), op).1 == Count(env, RunCounters(env, ops), op).1
    {
      StepRefines(env, RunOps(env, ops), RunCounters(env, ops), op);
    }
  }

  lemma StepRefines(env: Env, s: Reg, c: Counters, op: Op)
    requires WellFormed(env) && Abstracts(env, s, c) && Allowed(s, op)
    ensures Abstracts(env, Apply(env, s, op).0, Count(env, c, op).0)
    ensures Apply(env, s, op).1 == Count(env, c, op).1
  {
    match op
    case Req(m, block, text) => RequestRefines(env, s, c, m, block, text);
    case Rel(word) => ReleaseRefines(env, s, c, word);
  }

  // ---------------------------------------------------------------- consequences

  /** Requests made for a module, and releases of it that were answered with success. */
  ghost function Requests(ops: seq<Op>, m: string): nat {
    if ops == [] then 0
    else Requests(ops[..|ops| - 1], m) + if ops[|ops| - 1].Req? && ops[|ops| - 1].name == m then 1 else 0
  }

  ghost function Releases(env: Env, ops: seq<Op>, m: string): nat {
    if ops == [] then 0
    else
      var before, op := ops[..|ops| - 1], ops[|ops| - 1];
      Releases(env, before, m) +
      if op == Rel(WordOf(env, m)) && Apply(env, RunOps(env, before), op).1 == Status(S_OK) then 1 else 0
  }

  ghost predicate OpenWhileHeld(c: Counters, m: string, handle: Addr) {
    multiset(c.log)[Open(m, handle)] ==
    multiset(c.log)[Close(m, handle)] + if Get(c, m) > 0 then 1 else 0
  }

  lemma CountStep(env: Env, c: Counters, op: Op, m: string)
    requires WellFormed(env) && InTable(env, m) && OpenWhileHeld(c, m, HandleOf(env, m))
    ensures var (c', answer) := Count(env, c, op);
      && OpenWhileHeld(c', m, HandleOf(env, m))
      && Get(c', m) == Get(c, m)
           + (if op.Req? && op.name == m then 1 else 0)
           - (if op == Rel(WordOf(env, m)) && answer == Status(S_OK) then 1 else 0)
  {
    var h, c' := HandleOf(env, m), Count(env, c, op).0;
    if op.Req? {
      if InTable(env, op.name) {
        CountRequest(env, c, op.name, op.block, op.text);
        LoggedStep(c, c', op.name, m, h, HandleOf(env, op.name));
      }
    } else if exists n :: Answers(env, c, n, op.word) {
      var n :| Answers(env, c, n, op.word);
      CountRelease(env, c, op.word, n);
      LoggedStep(c, c', n, m, h, HandleOf(env, n));
    }
  }

  /** The counter of `n` moves by one, with a load or an unload where it leaves or reaches zero. */
  lemma LoggedStep(c: Counters, c': Counters, n: string, m: string, h: Addr, hn: Addr)
    requires OpenWhileHeld(c, m, h) && (n == m ==> hn == h)
    requires
      || (c'.count == c.count[n := Get(c, n) + 1] &&
          c'.log == if Get(c, n) == 0 then c.log + [Open(n, hn)] else c.log)
      || (Get(c, n) > 0 && c'.count == c.count[n := Get(c, n) - 1] &&
          c'.log == if Get(c, n) == 1 then c.log + [Close(n, hn)] else c.log)
    ensures OpenWhileHeld(c', m, h)
  {
    LogSnoc(c.log, Open(n, hn), m, h);
    LogSnoc(c.log, Close(n, hn), m, h);
  }

  lemma LogSnoc(log: seq<Load>, e: Load, m: string, h: Addr)
    ensures multiset(log + [e])[Open(m, h)] == multiset(log)[Open(m, h)] + if e == Open(m, h) then 1 else 0
    ensures multiset(log + [e])[Close(m, h)] == multiset(log)[Close(m, h)] + if e == Close(m, h) then 1 else 0
  {
  }

  /** Over every run: a module has as many nodes as it was requested less the releases that
      succeeded, and its own loads outnumber its unloads by one exactly while it has a node. */
  lemma {:induction false} NodesAreRequestsLessReleases(env: Env, ops: seq<Op>, m: string)
    requires WellFormed(env) && Possible(env, ops) && InTable(env, m)
    ensures multiset(Modules(RunOps(env, ops)))[m] + Releases(env, ops, m) == Requests(ops, m)
    ensures var log := multiset(RunOps(env, ops).log);
      log[Open(m, HandleOf(env, m))] ==
      log[Close(m, HandleOf(env, m))] + if multiset(Modules(RunOps(env, ops)))[m] > 0 then 1 else 0
  {
    CountersAddUp(env, ops, m);
    RegistryCountsReferences(env, ops);
  }

  lemma {:induction false} CountersAddUp(env: Env, ops: seq<Op>, m: string)
    requires WellFormed(env) && Possible(env, ops) && InTable(env, m)
    ensures Get(RunCounters(env, ops), m) + Releases(env, ops, m) == Requests(ops, m)
    ensures OpenWhileHeld(RunCounters(env, ops), m, HandleOf(env, m))
  {
    if ops != [] {
      var before, op := ops[..|ops| - 1], ops[|ops| - 1];
      assert forall k :: 0 <= k < |before| ==> before[..k] == ops[..k];
      CountersAddUp(env, before, m);
      RegistryCountsReferences(env, before);
      StepRefines(env, RunOps(env, before), RunCounters(env, before), op);
      CountStep(env, RunCounters(env, before), op, m);
    }
  }

  /** A request for a name that is not in the table is answered with null and changes nothing. */
  lemma UnknownIsNull(env: Env, s: Reg, name: string, block: Addr, text: Addr)
    requires ShortNames(env) && DistinctNames(env) && !InTable(env, name)
    ensures Request(env, s, name, block, text) == (s, 0)
  {
    TableLookup(env, name);
  }

  // ---------------------------------------------------------------- libraries shared by modules

  /** How often a library is open, as the loader counts it: by handle, not by module. */
  function OpenTimes(log: seq<Load>, h: Addr): int {
    if log == [] then 0
    else
      var e := log[|log| - 1];
      OpenTimes(log[..|log| - 1], h) + if e.handle != h then 0 else if e.Open? then 1 else -1
  }

  ghost predicate OnHandle(env: Env, i: nat, h: Addr) {
    i < |env.table| && env.handleOf(env.table[i].library) == h
  }

  /** The modules of the table on handle `h` that are held. */
  ghost function HeldOn(env: Env, c: Counters, h: Addr): set<nat> {
    set i: nat | i < |env.table| && OnHandle(env, i, h) && Get(c, env.table[i].name) > 0
  }

  lemma OpenTimesSnoc(log: seq<Load>, e: Load, h: Addr)
    ensures OpenTimes(log + [e], h) == OpenTimes(log, h) + if e.handle != h then 0 else if e.Open? then 1 else -1
  {
    assert (log + [e])[..|log + [e]| - 1] == log;
  }

  /** The counter of the `i`-th module moves by one; the held modules on `h` change with it. */
  lemma HeldOnStep(env: Env, c: Counters, c': Counters, i: nat, h: Addr)
    requires DistinctNames(env) && i < |env.table|
    requires c'.count == c.count[env.table[i].name := Get(c', env.table[i].name)]
    ensures var n, n' := Get(c, env.table[i].name), Get(c', env.table[i].name);
      |HeldOn(env, c', h)| - |HeldOn(env, c, h)| ==
      if !OnHandle(env, i, h) || (n > 0 <==> n' > 0) then 0 else if n' > 0 then 1 else -1
  {
    var m := env.table[i].name;
    assert forall j: nat :: j < |env.table| && j != i ==> env.table[j].name != m;
    SameButOne(HeldOn(env, c, h), HeldOn(env, c', h), i);
  }

  lemma SameButOne(x: set<nat>, y: set<nat>, i: nat)
    requires x - {i} == y - {i}
    ensures |y| - |x| == if i in x <==> i in y then 0 else if i in y then 1 else -1
  {
    assert i in x ==> x == (x - {i}) + {i};
    assert i in y ==> y == (y - {i}) + {i};
  }

  lemma HandleAt(env: Env, m: string) returns (i: nat)
    requires DistinctNames(env) && InTable(env, m)
    ensures i < |env.table| && env.table[i].name == m && forall h :: OnHandle(env, i, h) <==> HandleOf(env, m) == h
  {
    i :| 0 <= i < |env.table| && env.table[i].name == m;
  }

  ghost predicate OpenAsHeld(env: Env, c: Counters, h: Addr) {
    OpenTimes(c.log, h) == |HeldOn(env, c, h)|
  }

  lemma HandleStep(env: Env, c: Counters, op: Op, h: Addr)
    requires WellFormed(env) && OpenAsHeld(env, c, h)
    ensures OpenAsHeld(env, Count(env, c, op).0, h)
  {
    var c' := Count(env, c, op).0;
    if op.Req? {
      if InTable(env, op.name) {
        CountRequest(env, c, op.name, op.block, op.text);
        var i := HandleAt(env, op.name);
        OpenTimesSnoc(c.log, Open(op.name, HandleOf(env, op.name)), h);
        HeldOnStep(env, c, c', i, h);
      }
    } else if exists n :: Answers(env, c, n, op.word) {
      var n :| Answers(env, c, n, op.word);
      CountRelease(env, c, op.word, n);
      var i := HandleAt(env, n);
      OpenTimesSnoc(c.log, Close(n, HandleOf(env, n)), h);
      HeldOnStep(env, c, c', i, h);
    }
  }

  lemma {:induction false} HandlesAddUp(env: Env, ops: seq<Op>, h: Addr)
    requires WellFormed(env)
    ensures OpenAsHeld(env, RunCounters(env, ops), h)
  {
    if ops == [] {
      assert HeldOn(env, RunCounters(env, ops), h) == {};
    } else {
      HandlesAddUp(env, ops[..|ops| - 1], h);
      HandleStep(env, RunCounters(env, ops[..|ops| - 1]), ops[|ops| - 1], h);
    }
  }

  /** The modules of the table on handle `h` that have a node. */
  ghost function NodesOn(env: Env, s: Reg, h: Addr): set<nat> {
    set i: nat | i < |env.table| && OnHandle(env, i, h) && multiset(Modules(s))[env.table[i].name] > 0
  }

  /** Over every run: a library, which several modules may share, is open as often as it has
      modules with a node. So it is loaded exactly while one of its modules has a node, and the
      release of the last of them unloads it. */
  lemma LibraryIsOpenWhileHeld(env: Env, ops: seq<Op>, h: Addr)
    requires WellFormed(env) && Possible(env, ops)
    ensures OpenTimes(RunOps(env, ops).log, h) == |NodesOn(env, RunOps(env, ops), h)|
    ensures OpenTimes(RunOps(env, ops).log, h) > 0 <==>
      exists i: nat :: OnHandle(env, i, h) && multiset(Modules(RunOps(env, ops)))[env.table[i].name] > 0
  {
    var s, c := RunOps(env, ops), RunCounters(env, ops);
    HandlesAddUp(env, ops, h);
    RegistryCountsReferences(env, ops);
    assert NodesOn(env, s, h) == HeldOn(env, c, h);
    if i: nat :| OnHandle(env, i, h) && multiset(Modules(s))[env.table[i].name] > 0 {
      assert i in NodesOn(env, s, h);
    }
    if NodesOn(env, s, h) != {} {
      var i :| i in NodesOn(env, s, h);
    }
  }

  // ---------------------------------------------------------------- any table

  /** The libraries of the table load. */
  ghost predicate Loads(env: Env) {
    forall i :: 0 <= i < |env.table| ==> env.handleOf(env.table[i].library) != NULL
  }

  /** What needs no condition on the names or words: every node has a live name and a loaded
      library, and nodes that share a name string share everything. */
  ghost predicate Safe(s: Reg) {
    && (forall i :: 0 <= i < |s.cells| ==> Backed(s, s.cells[i].payload))
    && (forall i, j :: 0 <= i < |s.cells| && 0 <= j < |s.cells| ==>
          s.cells[i].payload.name == s.cells[j].payload.name ==> s.cells[i].payload == s.cells[j].payload)
  }

  ghost predicate Backed(s: Reg, info: Info) {
    info.name in s.names && info.name != NULL && info.handle != NULL
  }

  lemma RequestIsSafe(env: Env, s: Reg, name: string, block: Addr, text: Addr)
    requires Loads(env) && Safe(s) && text != NULL && text !in s.names
    ensures Safe(Request(env, s, name, block, text).0)
  {
    if FindEntry(env.table, name, 0) < |env.table| {
      var k, s' := First(s.cells, Passes(ByName(s.names, name)), 0), Request(env, s, name, block, text).0;
      assert k < |s.cells| ==> Backed(s, s.cells[k].payload);
      assert forall i :: 0 <= i < |s.cells| ==> s'.cells[i] == s.cells[i] && Backed(s, s.cells[i].payload);
    }
  }

  /** Where no other node passes the test by word, none shares the name that is freed. */
  lemma OthersKeepTheirName(env: Env, s: Reg, word: int, k: nat)
    requires Safe(s) && k < |s.cells| && ByOps(env, word)(s.cells[k])
    requires First(Without(s.cells, k), Passes(ByOps(env, word)), 0) == |s.cells| - 1
    ensures forall i :: 0 <= i < |s.cells| - 1 ==> Without(s.cells, k)[i].payload.name != s.cells[k].payload.name
  {
    var rest := Without(s.cells, k);
    forall i | 0 <= i < |rest|
      ensures rest[i].payload.name != s.cells[k].payload.name
    {
      assert !Holds(Passes(ByOps(env, word)), i, rest[i]);
    }
  }

  lemma ReleaseIsSafe(env: Env, s: Reg, word: int)
    requires Safe(s)
    ensures Safe(Release(env, s, word).0)
  {
    var test := Passes(ByOps(env, word));
    var k := First(s.cells, test, 0);
    if k < |s.cells| {
      var s', rest := Release(env, s, word).0, Without(s.cells, k);
      if First(rest, test, 0) == |rest| {
        OthersKeepTheirName(env, s, word, k);
      }
      forall i | 0 <= i < |rest|
        ensures Backed(s', rest[i].payload)
      {
        assert Backed(s, s.cells[if i < k then i else i + 1].payload);
      }
    }
  }

  /** `owner` gives every name string, lost ones included, the handle opened along with it. */
  ghost predicate Opened(s: Reg, owner: map<Addr, Addr>) {
    && owner.Keys == s.names.Keys
    && (forall i :: 0 <= i < |s.cells| ==> Owns(owner, s.cells[i].payload))
    && (forall h :: OpenTimes(s.log, h) == |On(owner, h)|)
  }

  ghost predicate Owns(owner: map<Addr, Addr>, info: Info) {
    info.name in owner && owner[info.name] == info.handle
  }

  ghost function On(owner: map<Addr, Addr>, h: Addr): set<Addr> {
    set a | a in owner && owner[a] == h
  }

  lemma RequestOpens(env: Env, s: Reg, owner: map<Addr, Addr>, name: string, block: Addr, text: Addr)
    returns (owner': map<Addr, Addr>)
    requires Opened(s, owner) && text !in s.names
    ensures Opened(Request(env, s, name, block, text).0, owner')
  {
    owner' := owner;
    var e, k := FindEntry(env.table, name, 0), First(s.cells, Passes(ByName(s.names, name)), 0);
    if e < |env.table| {
      if k < |s.cells| {
        assert Owns(owner, s.cells[k].payload);
      } else {
        var handle := env.handleOf(env.table[e].library);
        owner' := owner[text := handle];
        forall h
          ensures OpenTimes(s.log + [Open(name, handle)], h) == |On(owner', h)|
        {
          OpenTimesSnoc(s.log, Open(name, handle), h);
          SameButOne(On(owner, h), On(owner', h), text);
        }
      }
    }
  }

  lemma CloseOne(log: seq<Load>, owner: map<Addr, Addr>, name: Addr, e: Load)
    requires forall h :: OpenTimes(log, h) == |On(owner, h)|
    requires name in owner && e.Close? && e.handle == owner[name]
    ensures forall h :: OpenTimes(log + [e], h) == |On(owner - {name}, h)|
  {
    forall h
      ensures OpenTimes(log + [e], h) == |On(owner - {name}, h)|
    {
      OpenTimesSnoc(log, e, h);
      SameButOne(On(owner, h), On(owner - {name}, h), name);
    }
  }

  lemma ReleaseCloses(env: Env, s: Reg, owner: map<Addr, Addr>, word: int) returns (owner': map<Addr, Addr>)
    requires Safe(s) && Opened(s, owner)
    ensures Opened(Release(env, s, word).0, owner')
  {
    owner' := owner;
    var test := Passes(ByOps(env, word));
    var k := First(s.cells, test, 0);
    if k < |s.cells| {
      var info, rest := s.cells[k].payload, Without(s.cells, k);
      assert Owns(owner, info);
      assert forall i :: 0 <= i < |rest| ==> Owns(owner, rest[i].payload);
      if First(rest, test, 0) == |rest| {
        var close := Close(TextAt(s.names, info.name), info.handle);
        owner' := owner - {info.name};
        OthersKeepTheirName(env, s, word, k);
        CloseOne(s.log, owner, info.name, close);
      }
    }
  }

  /** Over every run, whatever the table: no node refers to a freed name or to a library that
      the loader has unloaded. */
  lemma NodesStayUsable(env: Env, ops: seq<Op>)
    requires Loads(env) && Possible(env, ops)
    ensures var s := RunOps(env, ops);
      forall i :: 0 <= i < |s.cells| ==> s.cells[i].payload.name in s.names && OpenTimes(s.log, s.cells[i].payload.handle) > 0
  {
    var s := RunOps(env, ops);
    var owner := RunIsSafe(env, ops);
    forall i | 0 <= i < |s.cells|
      ensures s.cells[i].payload.name in s.names && OpenTimes(s.log, s.cells[i].payload.handle) > 0
    {
      assert Owns(owner, s.cells[i].payload);
      assert s.cells[i].payload.name in On(owner, s.cells[i].payload.handle);
    }
  }

  lemma {:induction false} RunIsSafe(env: Env, ops: seq<Op>) returns (owner: map<Addr, Addr>)
    requires Loads(env) && Possible(env, ops)
    ensures Safe(RunOps(env, ops)) && Opened(RunOps(env, ops), owner)
  {
    if ops == [] {
      owner := map[];
      assert forall h :: On(owner, h) == {};
    } else {
      var before, op := ops[..|ops| - 1], ops[|ops| - 1];
      assert forall k :: 0 <= k < |before| ==> before[..k] == ops[..k];
      owner := RunIsSafe(env, before);
      match op
      case Req(name, block, text) =>
        RequestIsSafe(env, RunOps(env, before), name, block, text);
        owner := RequestOpens(env, RunOps(env, before), owner, name, block, text);
      case Rel(word) =>
        ReleaseIsSafe(env, RunOps(env, before), word);
        owner := ReleaseCloses(env, RunOps(env, before), owner, word);
    }
  }

  lemma StepKeepsInv(env: Env, s: Reg, op: Op)
    requires WellFormed(env) && Inv(env, s) && Allowed(s, op)
    ensures Inv(env, Apply(env, s, op).0)
  {
    match op
    case Req(m, block, text) =>
      TableLookup(env, m);
      if InTable(env, m) {
        RequestKeeps(env, s, m, block, text);
      }
    case Rel(word) =>
      var test := Passes(ByOps(env, word));
      var k := First(s.cells, test, 0);
      if k < |s.cells| {
        assert Sound(env, s, k) && Holds(test, k, s.cells[k]);
        ReleaseKeeps(env, s, word, k);
      }
  }

  // ---------------------------------------------------------------- why the table must be well formed

  lemma RunSnoc(env: Env, ops: seq<Op>, op: Op)
    ensures RunOps(env, ops + [op]) == Apply(env, RunOps(env, ops), op).0
    ensures RunCounters(env, ops + [op]) == Count(env, RunCounters(env, ops), op).0
    ensures Possible(env, ops) && Allowed(RunOps(env, ops), op) ==> Possible(env, ops + [op])
  {
    var all := ops + [op];
    assert all[..|all| - 1] == ops;
    assert forall k :: 0 <= k <= |ops| ==> all[..k] == ops[..k];
    assert ops[..|ops|] == ops;
  }

  lemma RunOne(env: Env, op: Op)
    ensures RunOps(env, [op]) == Apply(env, EMPTY, op).0
    ensures RunCounters(env, [op]) == Count(env, Counters(map[], []), op).0
    ensures Allowed(EMPTY, op) ==> Possible(env, [op])
  {
    assert [] + [op] == [op];
    RunSnoc(env, [], op);
  }

  /** Why names must not begin one another: a request for the shorter one, made while the
      longer one is held, is answered with the longer one's operations. */
  lemma PrefixClash(env: Env, short: nat, long: nat, first: Op, second: Op)
    requires ShortNames(env) && short < |env.table| && long < |env.table|
    requires env.table[short].name < env.table[long].name
    requires first.Req? && first.name == env.table[long].name
    requires second.Req? && second.name == env.table[short].name
    ensures Apply(env, RunOps(env, [first]), second).1 == Module(env.symbolOf(first.name))
    ensures RunOps(env, [first]).names == map[first.text := first.name]
    ensures Modules(RunOps(env, [first, second])) == [first.name, first.name]
  {
    var a, b := second.name, first.name;
    RunOne(env, first);
    assert StrnEq(env.table[long].name, b, MAX_MODULE_NAME) && FindEntry(env.table, b, 0) < |env.table|;
    assert StrnEq(env.table[short].name, a, MAX_MODULE_NAME) && FindEntry(env.table, a, 0) < |env.table|;
    var s := RunOps(env, [first]);
    assert |s.cells| == 1 && s.cells[0].payload.symbol == env.symbolOf(b) && ModuleAt(s, 0) == b;
    assert ByName(s.names, a)(s.cells[0]);
    assert Holds(Passes(ByName(s.names, a)), 0, s.cells[0]);
    assert [first] + [second] == [first, second];
    RunSnoc(env, [first], second);
  }

  ghost predicate Conforms(env: Env, ops: seq<Op>, op: Op) {
    Apply(env, RunOps(env, ops), op).1 == Count(env, RunCounters(env, ops), op).1
  }

  /** Every answer of every run is the counters' answer if and only if no module name begins
      another. */
  lemma ConformsIffPrefixFree(env: Env)
    requires ShortNames(env) && DistinctNames(env) && DistinctWords(env)
    ensures PrefixFree(env) <==>
      forall ops, op :: Possible(env, ops) && Allowed(RunOps(env, ops), op) ==> Conforms(env, ops, op)
  {
    if PrefixFree(env) {
      forall ops, op | Possible(env, ops) && Allowed(RunOps(env, ops), op)
        ensures Conforms(env, ops, op)
      {
        RegistryCountsReferences(env, ops);
      }
    } else {
      var i, j :| 0 <= i < |env.table| && 0 <= j < |env.table| && i != j &&
        env.table[i].name <= env.table[j].name;
      PrefixClashAnswers(env, i, j);
    }
  }

  lemma PrefixClashAnswers(env: Env, i: nat, j: nat)
    requires ShortNames(env) && DistinctWords(env)
    requires i < |env.table| && j < |env.table| && env.table[i].name < env.table[j].name
    ensures var ops, op := [Req(env.table[j].name, 1, 1)], Req(env.table[i].name, 2, 2);
      Possible(env, ops) && Allowed(RunOps(env, ops), op) && !Conforms(env, ops, op)
  {
    var a, b := env.table[i].name, env.table[j].name;
    var first, second := Req(b, 1, 1), Req(a, 2, 2);
    PrefixClash(env, i, j, first, second);
    RunOne(env, first);
    assert InTable(env, a) && InTable(env, b) && env.symbolOf(a) != env.symbolOf(b);
  }

  /** The node that a first request for `m` adds. */
  ghost function FirstNode(env: Env, m: string, block: Addr, text: Addr): Cell<Info>
    requires InTable(env, m)
  {
    Cell(block, block, false, NULL, Info(text, HandleOf(env, m), env.symbolOf(m)))
  }

  lemma FirstRequest(env: Env, s: Reg, m: string, block: Addr, text: Addr)
    requires ShortNames(env) && DistinctNames(env) && InTable(env, m)
    requires forall i :: 0 <= i < |s.cells| ==> !ByName(s.names, m)(s.cells[i])
    ensures Request(env, s, m, block, text).0 ==
      Reg(s.cells + [FirstNode(env, m, block, text)], s.names[text := m], s.log + [Open(m, HandleOf(env, m))])
  {
    TableLookup(env, m);
  }

  /** Two nodes whose operations begin with the same word: the release of either takes the first
      and closes nothing; the next one closes the library of the second and frees its name. */
  lemma ReleaseBoth(env: Env, s: Reg, c1: Cell<Info>, c2: Cell<Info>, w: int)
    requires s.cells == [c1, c2] && ByOps(env, w)(c1) && ByOps(env, w)(c2)
    ensures Release(env, Release(env, s, w).0, w).0 ==
      Reg([], s.names - {c2.payload.name}, s.log + [Close(TextAt(s.names, c2.payload.name), c2.payload.handle)])
  {
    var test, rest := Passes(ByOps(env, w)), [c2];
    assert Holds(test, 0, s.cells[0]) && Holds(test, 1, s.cells[1]) && Holds(test, 0, rest[0]);
    assert Without(s.cells, 0) == rest && Without(rest, 0) == [];
  }

  lemma TwoReleases(env: Env, ops: seq<Op>, w: int)
    requires Possible(env, ops)
    ensures Possible(env, ops + [Rel(w), Rel(w)])
    ensures RunOps(env, ops + [Rel(w), Rel(w)]) == Release(env, Release(env, RunOps(env, ops), w).0, w).0
  {
    RunSnoc(env, ops, Rel(w));
    RunSnoc(env, ops + [Rel(w)], Rel(w));
    assert ops + [Rel(w)] + [Rel(w)] == ops + [Rel(w), Rel(w)];
  }

  lemma FourOps(op1: Op, op2: Op, op3: Op, op4: Op)
    ensures [op1, op2] + [op3, op4] == [op1, op2, op3, op4]
  {
  }

  lemma DropSecond(t1: Addr, a: string, t2: Addr, b: string)
    requires t1 != t2
    ensures map[t1 := a, t2 := b] - {t2} == map[t1 := a]
  {
  }

  lemma LostName(env: Env, s: Reg, a: Addr)
    requires s.cells == [] && a in s.names
    ensures !Inv(env, s)
  {
    assert !Uses(s, a);
  }

  /** Why two modules must not begin with the same word: request each once and release each
      once. The registry is then empty, but the first one's library is still open, and its name
      is allocated and referred to by nothing. */
  lemma WordClash(env: Env, a: string, b: string, req1: Op, req2: Op)
    requires PrefixFree(env) && ShortNames(env) && InTable(env, a) && InTable(env, b)
    requires a != b && WordOf(env, a) == WordOf(env, b)
    requires req1.Req? && req1.name == a && req2.Req? && req2.name == b
    requires req1.text != NULL && req2.text != NULL && req1.text != req2.text
    ensures var ops := [req1, req2, Rel(WordOf(env, a)), Rel(WordOf(env, b))];
      && Possible(env, ops)
      && RunOps(env, ops) ==
           Reg([], map[req1.text := a], [Open(a, HandleOf(env, a)), Open(b, HandleOf(env, b)), Close(b, HandleOf(env, b))])
      && !Inv(env, RunOps(env, ops))
  {
    var w, two := WordOf(env, a), [req1, req2];
    OneOfEach(env, a, b, req1, req2);
    TwoReleases(env, two, w);
    FourOps(req1, req2, Rel(w), Rel(w));
    var c1, c2 := FirstNode(env, a, req1.block, req1.text), FirstNode(env, b, req2.block, req2.text);
    ReleaseBoth(env, RunOps(env, two), c1, c2, w);
    DropSecond(req1.text, a, req2.text, b);
    LostName(env, RunOps(env, two + [Rel(w), Rel(w)]), req1.text);
  }

  lemma OneOfEach(env: Env, a: string, b: string, req1: Op, req2: Op)
    requires PrefixFree(env) && ShortNames(env) && InTable(env, a) && InTable(env, b) && a != b
    requires req1.Req? && req1.name == a && req2.Req? && req2.name == b
    requires req1.text != NULL && req2.text != NULL && req1.text != req2.text
    ensures Possible(env, [req1, req2])
    ensures RunOps(env, [req1, req2]) ==
      Reg([FirstNode(env, a, req1.block, req1.text), FirstNode(env, b, req2.block, req2.text)],
          map[req1.text := a, req2.text := b], [Open(a, HandleOf(env, a)), Open(b, HandleOf(env, b))])
  {
    var s := Reg([FirstNode(env, a, req1.block, req1.text)], map[req1.text := a], [Open(a, HandleOf(env, a))]);
    RunOne(env, req1);
    FirstRequest(env, EMPTY, a, req1.block, req1.text);
    assert RunOps(env, [req1]) == s;
    assert !StrnEq(a, b, |b|);
    FirstRequest(env, s, b, req2.block, req2.text);
    assert [req1] + [req2] == [req1, req2];
    RunSnoc(env, [req1], req2);
  }

  /** Under a prefix-free table, no run loses a name and every node is sound if and only if no two
      modules begin with the same word. */
  lemma NothingIsLostIff(env: Env)
    requires PrefixFree(env) && ShortNames(env)
    ensures (forall ops :: Possible(env, ops) ==> Inv(env, RunOps(env, ops))) <==> DistinctWords(env)
  {
    if DistinctWords(env) {
      forall ops | Possible(env, ops)
        ensures Inv(env, RunOps(env, ops))
      {
        RegistryCountsReferences(env, ops);
      }
    } else {
      var a, b :| InTable(env, a) && InTable(env, b) && a != b && WordOf(env, a) == WordOf(env, b);
      WordClash(env, a, b, Req(a, 1, 1), Req(b, 2, 2));
    }
  }

  lemma PrefixClashBreaks(env: Env, i: nat, j: nat)
    requires ShortNames(env) && i < |env.table| && j < |env.table| && env.table[i].name < env.table[j].name
    ensures var ops := [Req(env.table[j].name, 1, 1), Req(env.table[i].name, 2, 2)];
      Possible(env, ops) && !Abstracts(env, RunOps(env, ops), RunCounters(env, ops))
  {
    var a, b := env.table[i].name, env.table[j].name;
    var first, second := Req(b, 1, 1), Req(a, 2, 2);
    PrefixClash(env, i, j, first, second);
    RunOne(env, first);
    assert [first] + [second] == [first, second];
    RunSnoc(env, [first], second);
    assert InTable(env, a) && InTable(env, b);
    CountRequest(env, Counters(map[], []), b, 1, 1);
    CountRequest(env, RunCounters(env, [first]), a, 2, 2);
    assert a !in multiset([b, b]);
  }

  /** The whole condition: every run of the registry stands for the reference counters if and
      only if the table is well formed. */
  lemma RefinesIffWellFormed(env: Env)
    requires ShortNames(env) && DistinctNames(env)
    ensures (forall ops :: Possible(env, ops) ==> Abstracts(env, RunOps(env, ops), RunCounters(env, ops))) <==>
            PrefixFree(env) && DistinctWords(env)
  {
    if !PrefixFree(env) {
      var i, j :| 0 <= i < |env.table| && 0 <= j < |env.table| && i != j &&
        env.table[i].name <= env.table[j].name;
      PrefixClashBreaks(env, i, j);
    } else {
      NothingIsLostIff(env);
      if DistinctWords(env) {
        forall ops | Possible(env, ops)
          ensures Abstracts(env, RunOps(env, ops), RunCounters(env, ops))
        {
          RegistryCountsReferences(env, ops);
        }
      }
    }
  }
}
