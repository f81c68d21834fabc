/** The registry as the program keeps it: a linked list in memory, the live name strings and
    the loader's log, updated in place by src/modules/base/module/linux_module.c. */
module ModuleManager {
  import opened ArtikTypes
  import opened ArtikList
  import MR = ModuleRegistry

  class Manager {
    const env: MR.Env
    const list: List<MR.Info>
    var names: map<Addr, string>
    var log: seq<MR.Load>

    /** Nothing is demanded of the table but that its libraries load. */
    ghost predicate Valid()
      reads this, list
    {
      list.Valid() && list.blank == MR.BLANK && MR.Loads(env) && MR.Safe(Abs())
    }

    ghost function Abs(): MR.Reg
      reads this, list
    {
      MR.Reg(list.cells, names, log)
    }

    constructor (env: MR.Env)
      requires MR.Loads(env)
      ensures Valid() && fresh(list) && Abs() == MR.EMPTY && this.env == env
    {
      this.env := env;
      list := new List<MR.Info>(MR.BLANK);
      names, log := map[], [];
    }

    /** The scan of the platform's table. */
    method FindModule(name: string) returns (i: nat)
      ensures i == MR.FindEntry(env.table, name, 0)
    {
      i := 0;
      while i < |env.table| && !MR.StrnEq(env.table[i].name, name, MR.MAX_MODULE_NAME)
        invariant i <= |env.table| && MR.FindEntry(env.table, name, 0) == MR.FindEntry(env.table, name, i)
      {
        i := i + 1;
      }
    }

    /** The first node that passes the check, and what it holds; blank if there is none. */
    method Lookup(check: Cell<MR.Info> -> bool) returns (found: bool, info: MR.Info)
      requires list.Valid()
      ensures var k := First(list.cells, Passes(check), 0);
        && (found <==> k < |list.cells|)
        && info == if k < |list.cells| then list.cells[k].payload else MR.BLANK
    {
      var node := list.GetByCheck(check);
      list.ReachesAt(First(list.cells, Passes(check), 0));
      found := node != NULL;
      info := if found then list.mem[node].payload else MR.BLANK;
    }

    /** Delete the first node that passes the check. */
    method Drop(check: Cell<MR.Info> -> bool) returns (ret: Error)
      requires list.Valid()
      modifies list
      ensures list.Valid() && list.cells == RemoveFirst(old(list.Abs()), Passes(check)).cells
      ensures ret == if First(old(list.cells), Passes(check), 0) == |old(list.cells)| then E_BAD_ARGS else S_OK
    {
      ret := list.DeleteCheck(check);
    }

    /** Load the library unless a node was found, copy the name unless one is shared. */
    method Load(name: string, library: string, found: MR.Info, text: Addr) returns (info: MR.Info)
      modifies this`names, this`log
      ensures found.handle == NULL ==>
        && info.handle == env.handleOf(library) && info.symbol == env.symbolOf(name)
        && log == old(log) + [MR.Open(name, info.handle)]
      ensures found.handle != NULL ==> info.handle == found.handle && info.symbol == found.symbol && log == old(log)
      ensures found.name == NULL ==> info.name == text && names == old(names)[text := name]
      ensures found.name != NULL ==> info.name == found.name && names == old(names)
    {
      info := found;
      if info.handle == NULL {
        info := info.(handle := env.handleOf(library), symbol := env.symbolOf(name));
        log := log + [MR.Open(name, info.handle)];
      }
      if info.name == NULL {
        names, info := names[text := name], info.(name := text);
      }
    }

    method AddNode(block: Addr)
      requires list.Valid() && block != NULL && block !in list.mem
      modifies list
      ensures list.Valid() && list.cells == old(list.cells) + [Cell(block, block, false, NULL, list.blank)]
    {
      var _ := list.Add(NULL, block);
    }

    /** The new node, once its fields have been filled in. */
    method Fill(elem: Addr, info: MR.Info, ghost before: seq<Cell<MR.Info>>)
      requires list.Valid() && list.cells == before + [Cell(elem, elem, false, NULL, MR.BLANK)]
      modifies list
      ensures list.Valid() && list.cells == before + [Cell(elem, elem, false, NULL, info)]
    {
      list.ReachesAt(|before|);
      list.FoundAt(|before|);
      list.SetFields(elem, false, NULL, info);
    }

    /** `os_request_api_module` for a name that is not null; `block` and `text` are the
        addresses that `malloc` has to offer. */
    method Request(name: string, block: Addr, text: Addr) returns (symbol: int)
      requires Valid() && block != NULL && block !in list.mem && text != NULL && text !in names
      modifies this, list
      ensures Valid()
      ensures (Abs(), symbol) == MR.Request(env, old(Abs()), name, block, text)
      ensures MR.WellFormed(env) && MR.Inv(env, old(Abs())) ==> MR.Inv(env, Abs())
    {
      if MR.WellFormed(env) && MR.Inv(env, Abs()) {
        MR.StepKeepsInv(env, Abs(), MR.Req(name, block, text));
      }
      var i := FindModule(name);
      if i == |env.table| {
        return MR.NULL_MODULE;
      }
      ghost var s := Abs();
      MR.RequestIsSafe(env, s, name, block, text);
      ghost var k := First(s.cells, Passes(MR.ByName(names, name)), 0);
      assert k < |s.cells| ==> MR.Backed(s, s.cells[k].payload);
      var found, info := Lookup(MR.ByName(names, name));
      AddNode(block);
      info := Load(name, env.table[i].library, info, text);
      Fill(block, info, s.cells);
      return info.symbol;
    }

    /** `os_release_api_module`; `word` is the first word behind the caller's pointer. */
    method Release(word: int) returns (ret: Error)
      requires Valid()
      modifies this, list
      ensures Valid()
      ensures (Abs(), ret) == MR.Release(env, old(Abs()), word)
      ensures MR.WellFormed(env) && MR.Inv(env, old(Abs())) ==> MR.Inv(env, Abs())
    {
      if MR.WellFormed(env) && MR.Inv(env, Abs()) {
        MR.StepKeepsInv(env, Abs(), MR.Rel(word));
      }
      ghost var s, test := Abs(), Passes(MR.ByOps(env, word));
      ghost var k := First(list.cells, test, 0);
      var found, info := Lookup(MR.ByOps(env, word));
      if !found {
        return E_BAD_ARGS;
      }
      assert MR.Backed(s, s.cells[k].payload);
      MR.ReleaseIsSafe(env, s, word);
      ret := Drop(MR.ByOps(env, word));
      var again, _ := Lookup(MR.ByOps(env, word));
      if !again {
        assert info.name in names;
        log := log + [MR.Close(names[info.name], info.handle)];
        names := names - {info.name};
      }
    }
  }

  // ---------------------------------------------------------------- the table that ships

  /** The module table shared by the Linux platforms (inc/base/platform). */
  const LINUX_TABLE: seq<MR.Entry> := [
    MR.Entry("log", "base"), MR.Entry("loop", "base"), MR.Entry("gpio", "systemio"),
    MR.Entry("i2c", "systemio"), MR.Entry("serial", "systemio"), MR.Entry("pwm", "systemio"),
    MR.Entry("adc", "systemio"), MR.Entry("http", "connectivity"), MR.Entry("cloud", "connectivity"),
    MR.Entry("wifi", "wifi"), MR.Entry("media", "media"), MR.Entry("time", "base"),
    MR.Entry("security", "connectivity"), MR.Entry("spi", "systemio"), MR.Entry("bluetooth", "bluetooth"),
    MR.Entry("sensor", "sensor"), MR.Entry("zigbee", "zigbee"), MR.Entry("network", "connectivity"),
    MR.Entry("websocket", "connectivity"), MR.Entry("lwm2m", "lwm2m"), MR.Entry("mqtt", "mqtt")]

  /** The first three letters tell every pair of names apart. */
  function Key(name: string): int
    requires |name| >= 3
  {
    name[0] as int * 0x1_0000 + name[1] as int * 0x100 + name[2] as int
  }

  function KeyAt(i: nat): int
    requires i < 21
  {
    [0x6C6F67, 0x6C6F6F, 0x677069, 0x693263, 0x736572, 0x70776D, 0x616463, 0x687474, 0x636C6F, 0x776966, 0x6D6564,
     0x74696D, 0x736563, 0x737069, 0x626C75, 0x73656E, 0x7A6967, 0x6E6574, 0x776562, 0x6C776D, 0x6D7174][i]
  }

  lemma TableKey(i: nat)
    requires i < |LINUX_TABLE|
    ensures 3 <= |LINUX_TABLE[i].name| && Key(LINUX_TABLE[i].name) == KeyAt(i)
  {
  }

  lemma KeysDiffer(i: nat, j: nat)
    requires i < j < 21
    ensures KeyAt(i) != KeyAt(j)
  {
  }

  lemma KeyOfPrefix(a: string, b: string)
    requires 3 <= |a| && a <= b
    ensures Key(a) == Key(b)
  {
    assert a[0] == b[0] && a[1] == b[1] && a[2] == b[2];
  }

  lemma NamesDoNotNest(i: nat, j: nat)
    requires i < |LINUX_TABLE| && j < |LINUX_TABLE| && i != j
    ensures !(LINUX_TABLE[i].name <= LINUX_TABLE[j].name)
  {
    var a, b := LINUX_TABLE[i].name, LINUX_TABLE[j].name;
    TableKey(i);
    TableKey(j);
    if a <= b {
      KeyOfPrefix(a, b);
      if i < j {
        KeysDiffer(i, j);
      } else {
        KeysDiffer(j, i);
      }
    }
  }

  /** The shipped names never begin one another. The other condition, on the first words of the
      modules' operations, is decided by the libraries and not by the table. */
  lemma LinuxTableIsPrefixFree(env: MR.Env)
    requires env.table == LINUX_TABLE
    ensures MR.PrefixFree(env)
  {
    forall i, j | 0 <= i < |env.table| && 0 <= j < |env.table| && i != j
      ensures !(env.table[i].name <= env.table[j].name)
    {
      NamesDoNotNest(i, j);
    }
  }
}
