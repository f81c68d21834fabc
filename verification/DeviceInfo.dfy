/** The device description of src/modules/base/module/linux_module.c: JSON built by
    concatenation into a buffer whose size is computed beforehand, every entry written
    through a bounded print, and the last comma patched away afterwards. */
module DeviceInfo {
  import opened ArtikTypes
  import opened Json

  const HEADER := "{\n"
  const TAIL := "\n}"
  const MODULES_HEADER := "\t\"modules\":[\n"
  const MODULES_TAIL := "\t]\n"
  const MAX_PLATFORM_ENTRY := 25
  const MAX_MODULE_ENTRY := 17

  function PlatformName(platid: int): (name: string)
    ensures |name| <= 9 && Plain(name)
  {
    match platid
    case 1 => "ARTIK520"
    case 2 => "ARTIK1020"
    case 3 => "ARTIK710"
    case 4 => "ARTIK530"
    case _ => "GENERIC"
  }

  /** `snprintf` into a buffer of `size` characters, terminator included. */
  function Snprintf(text: string, size: nat): string
    requires size > 0
  {
    if |text| < size then text else text[..size - 1]
  }

  function PlatformText(name: string): string {
    "\t\"name\": \"" + name + "\",\n"
  }

  function ModuleText(name: string): string {
    "\t\"" + name + "\",\n"
  }

  function Entry(name: string): (e: string)
    ensures 5 <= |e| < MAX_MODULE_ENTRY && e[0] == '\t' && e[1] == '"'
  {
    Snprintf(ModuleText(name), MAX_MODULE_ENTRY)
  }

  function Entries(names: seq<string>): (e: string)
    ensures |e| <= (MAX_MODULE_ENTRY - 1) * |names|
    ensures names != [] ==> |e| >= 5
  {
    if names == [] then "" else Entry(names[0]) + Entries(names[1..])
  }

  function Prefix(platid: int): (p: string)
    ensures |p| <= 2 + 24 + 13
    ensures |p| >= 2
  {
    HEADER + Snprintf(PlatformText(PlatformName(platid)), MAX_PLATFORM_ENTRY) + MODULES_HEADER
  }

  /** The last but one character becomes a line end, the last one is dropped. */
  function Repair(s: string): string
    requires |s| >= 2
  {
    s[..|s| - 2] + "\n"
  }

  function Document(platid: int, names: seq<string>): string {
    Repair(Prefix(platid) + Entries(names)) + MODULES_TAIL + TAIL
  }

  /** The size computed before anything is written. */
  function BufferSize(modules: nat): nat {
    MAX_PLATFORM_ENTRY + MAX_MODULE_ENTRY * modules + |HEADER| + |TAIL| + |MODULES_HEADER| + |MODULES_TAIL| + 1
  }

  // ---------------------------------------------------------------- what it reads as

  /** Names that survive the bounded print: 11 characters for the last, one more for the others,
      whose line end may be cut off. */
  predicate Fits(names: seq<string>) {
    && names != []
    && |names[|names| - 1]| <= 11
    && forall i :: 0 <= i < |names| - 1 ==> |names[i]| <= 12
  }

  predicate AllPlain(names: seq<string>) {
    forall i :: 0 <= i < |names| ==> Plain(names[i])
  }

  function Texts(names: seq<string>): seq<Json> {
    if names == [] then [] else [JText(names[0])] + Texts(names[1..])
  }

  function Described(platid: int, names: seq<string>): Json {
    JObject([("name", JText(PlatformName(platid))), ("modules", JArray(Texts(names)))])
  }

  /** Everything from the first module entry to the end. */
  function Rest(names: seq<string>): string
    requires names != []
  {
    Repair(Entries(names)) + MODULES_TAIL + TAIL
  }

  function ItemTokens(names: seq<string>): seq<Token>
    requires names != []
  {
    if |names| == 1 then [Text(names[0]), RBrack] else [Text(names[0]), Comma] + ItemTokens(names[1..])
  }

  lemma RestOfOne(n: string)
    ensures Rest([n]) == (if |n| <= 11 then "\t\"" + n + "\"" else "\t\"" + n[..12]) + ("\n" + (MODULES_TAIL + TAIL))
  {
    assert Entries([n]) == Entry(n);
    var t := ModuleText(n);
    if |n| <= 11 {
      assert t[..|t| - 2] == "\t\"" + n + "\"";
    } else {
      assert Entry(n)[..14] == "\t\"" + n[..12];
    }
  }

  /** What the bounded print leaves of an entry. */
  lemma EntryShape(n: string)
    ensures Entry(n) ==
      if |n| <= 11 then "\t\"" + n + "\"" + ",\n"
      else if |n| == 12 then "\t\"" + n + "\"" + ","
      else if |n| == 13 then "\t\"" + n + "\""
      else "\t\"" + n[..14]
  {
  }

  lemma RestOfMore(n: string, ns: seq<string>)
    requires ns != []
    ensures Rest([n] + ns) == Entry(n) + Rest(ns)
  {
    assert ([n] + ns)[1..] == ns;
    var e := Entries(ns);
    assert (Entry(n) + e)[..|Entry(n) + e| - 2] == Entry(n) + e[..|e| - 2];
  }

  lemma LexEnd()
    ensures Lex("\n" + (MODULES_TAIL + TAIL)) == Some([RBrack, RBrace])
  {
    LexBlank("\n\t", "]\n\n}");
    LexMark(']', "\n\n}");
    LexBlank("\n\n", "}");
    LexMark('}', "");
    assert "\n" + (MODULES_TAIL + TAIL) == "\n\t" + "]\n\n}";
    assert "]" + "\n\n}" == "]\n\n}";
    assert "\n\n" + "}" == "\n\n}";
    assert "}" + "" == "}";
    assert [RBrack] + ([RBrace] + []) == [RBrack, RBrace];
  }

  lemma LexEntry(n: string, rest: string)
    requires Plain(n)
    ensures Lex("\t\"" + n + "\"" + rest) == Prepend([Text(n)], Lex(rest))
  {
    EntryText(n + "\"", rest);
    assert "\"" + (n + "\"") == "\"" + n + "\"" && "\t\"" + (n + "\"") == "\t\"" + n + "\"";
    LexQuoted(n, rest);
    LexBlank("\t", "\"" + n + "\"" + rest);
  }

  lemma EntryText(n: string, rest: string)
    ensures "\t\"" + n + rest == "\t" + ("\"" + n + rest)
  {
  }

  lemma LexCutEntry(n: string, rest: string)
    requires Plain(n) && rest != "" && rest[0] < ' '
    ensures Lex("\t\"" + n + rest) == None
  {
    LexTextBroken(n, rest);
    var t := "\"" + n + rest;
    assert t[1..] == n + rest;
    LexBlank("\t", t);
    EntryText(n, rest);
  }

  lemma LexComma(blank: string, rest: string)
    requires blank == "" || blank == "\n"
    ensures Lex("," + blank + rest) == Prepend([Comma], Lex(rest))
  {
    LexMark(',', blank + rest);
    LexBlank(blank, rest);
    assert "," + blank + rest == "," + (blank + rest);
  }

  /** The tokens start a list of items that cannot be completed. */
  predicate Unreadable(r: Option<seq<Token>>) {
    r.Some? ==> r.value != [] && r.value[0].Text? && ParseItems(r.value) == None
  }

  lemma UnreadableAfterItem(n: string, r: Option<seq<Token>>)
    requires Unreadable(r)
    ensures Unreadable(Prepend([Text(n), Comma], r))
  {
    if r.Some? {
      var ts := [Text(n), Comma] + r.value;
      assert ts[1..] == [Comma] + r.value && ts[1..][1..] == r.value;
    }
  }

  lemma UnreadableWithoutComma(n: string, r: Option<seq<Token>>)
    requires r.Some? ==> r.value != [] && r.value[0].Text?
    ensures Unreadable(Prepend([Text(n)], r))
  {
    if r.Some? {
      assert ([Text(n)] + r.value)[1..] == r.value;
    }
  }

  /** The module list, read back: either exactly its items, or nothing that can be read. */
  lemma {:induction false} ReadRest(names: seq<string>)
    requires names != [] && AllPlain(names)
    ensures Fits(names) ==> Lex(Rest(names)) == Some(ItemTokens(names) + [RBrace])
    ensures !Fits(names) ==> Unreadable(Lex(Rest(names)))
    ensures Rest(names)[0] == '\t'
  {
    var n, ns := names[0], names[1..];
    assert names == [n] + ns;
    if ns == [] {
      ReadLast(n);
      assert [Text(n), RBrack] + [RBrace] == [Text(n), RBrack, RBrace];
    } else {
      ReadRest(ns);
      assert ns[|ns| - 1] == names[|names| - 1];
      assert Fits(names) <==> |n| <= 12 && Fits(ns) by {
        assert forall i :: 0 <= i < |ns| ==> ns[i] == names[i + 1];
      }
      ReadMore(n, ns);
    }
  }

  lemma ReadLast(n: string)
    requires Plain(n)
    ensures |n| <= 11 ==> Lex(Rest([n])) == Some([Text(n), RBrack, RBrace])
    ensures |n| > 11 ==> Lex(Rest([n])) == None
    ensures Rest([n])[0] == '\t'
  {
    var end := "\n" + (MODULES_TAIL + TAIL);
    RestOfOne(n);
    if |n| <= 11 {
      LexEntry(n, end);
      LexEnd();
      assert [Text(n)] + [RBrack, RBrace] == [Text(n), RBrack, RBrace];
    } else {
      LexCutEntry(n[..12], end);
    }
  }

  lemma ReadMore(n: string, ns: seq<string>)
    requires Plain(n) && ns != [] && Rest(ns)[0] == '\t'
    requires Fits(ns) ==> Lex(Rest(ns)) == Some(ItemTokens(ns) + [RBrace])
    requires !Fits(ns) ==> Unreadable(Lex(Rest(ns)))
    ensures |n| <= 12 && Fits(ns) ==> Lex(Rest([n] + ns)) == Some(ItemTokens([n] + ns) + [RBrace])
    ensures !(|n| <= 12 && Fits(ns)) ==> Unreadable(Lex(Rest([n] + ns)))
    ensures Rest([n] + ns)[0] == '\t'
  {
    var rest := Rest(ns);
    RestOfMore(n, ns);
    EntryShape(n);
    assert ([n] + ns)[1..] == ns;
    if |n| <= 12 {
      ReadFitting(n, rest);
      if Fits(ns) {
        assert [Text(n), Comma] + (ItemTokens(ns) + [RBrace]) == ItemTokens([n] + ns) + [RBrace];
      } else {
        UnreadableAfterItem(n, Lex(rest));
      }
    } else if |n| == 13 {
      LexEntry(n, rest);
      assert ItemTokens(ns)[0].Text?;
      UnreadableWithoutComma(n, Lex(rest));
    } else {
      LexCutEntry(n[..14], rest);
    }
  }

  lemma ReadFitting(n: string, rest: string)
    requires Plain(n) && |n| <= 12
    ensures Lex(Entry(n) + rest) == Prepend([Text(n), Comma], Lex(rest))
  {
    var blank := if |n| <= 11 then "\n" else "";
    EntryShape(n);
    assert "," + blank == if |n| <= 11 then ",\n" else ",";
    EntryThen(n, blank, rest);
    LexEntry(n, "," + blank + rest);
    LexComma(blank, rest);
    PrependTwice([Text(n)], [Comma], Lex(rest));
    assert [Text(n)] + [Comma] == [Text(n), Comma];
  }

  lemma EntryThen(n: string, blank: string, rest: string)
    ensures "\t\"" + n + "\"" + ("," + blank) + rest == "\t\"" + n + "\"" + ("," + blank + rest)
  {
  }

  // ---------------------------------------------------------------- the whole document

  /** Everything before the bracket that opens the module list. */
  function Head(platid: int): string {
    "{\n" + PlatformText(PlatformName(platid)) + "\t\"modules\":"
  }

  function HeadTokens(platid: int): seq<Token> {
    [LBrace, Text("name"), Colon, Text(PlatformName(platid)), Comma, Text("modules"), Colon]
  }

  lemma DocumentParts(platid: int, names: seq<string>)
    ensures Document(platid, names) ==
      if names == [] then Head(platid) + ("\n" + (MODULES_TAIL + TAIL)) else Head(platid) + ("[\n" + Rest(names))
  {
    PrefixIsHead(platid);
    RepairAfter(Head(platid), Entries(names));
  }

  lemma PrefixIsHead(platid: int)
    ensures Prefix(platid) == Head(platid) + "[\n"
  {
    assert MODULES_HEADER == "\t\"modules\":" + "[\n";
  }

  /** The repair touches the entries only, or the bracket if there are none. */
  lemma RepairAfter(head: string, e: string)
    requires |e| != 1
    ensures Repair(head + "[\n" + e) == if e == "" then head + "\n" else head + ("[\n" + Repair(e))
  {
    var s := head + "[\n" + e;
    if e == "" {
      assert s[..|s| - 2] == head;
    } else {
      assert s[..|s| - 2] == head + ("[\n" + e[..|e| - 2]);
    }
  }

  /** The head as a chain of tokens and blanks. */
  lemma HeadText(name: string, rest: string)
    ensures "{\n" + PlatformText(name) + "\t\"modules\":" + rest ==
      "{" + ("\n\t" + ("\"" + "name" + "\"" + (":" + (" " + SecondMember(name, rest)))))
  {
    var modules := "\"" + "modules" + "\"" + (":" + rest);
    assert "\t\"modules\":" + rest == "\t" + modules;
    NameText(name, modules);
  }

  lemma NameText(name: string, modules: string)
    ensures "{\n" + PlatformText(name) + ("\t" + modules) ==
      "{" + ("\n\t" + ("\"" + "name" + "\"" + (":" + (" " + ("\"" + name + "\"" + ("," + ("\n\t" + modules)))))))
  {
    assert PlatformText(name) + ("\t" + modules) == "\t\"name\": \"" + (name + ("\",\n\t" + modules));
    assert "\"" + name + "\"" + ("," + ("\n\t" + modules)) == "\"" + (name + ("\",\n\t" + modules));
  }

  function SecondMember(name: string, rest: string): string {
    "\"" + name + "\"" + ("," + ("\n\t" + ("\"" + "modules" + "\"" + (":" + rest))))
  }

  lemma LexHead(platid: int, rest: string)
    ensures Lex(Head(platid) + rest) == Prepend(HeadTokens(platid), Lex(rest))
  {
    var name := PlatformName(platid);
    HeadText(name, rest);
    LexSecondMember(name, rest);
    LexFirstMember(SecondMember(name, rest));
    if Lex(rest).Some? {
      assert [LBrace, Text("name"), Colon] + ([Text(name), Comma, Text("modules"), Colon] + Lex(rest).value) ==
             HeadTokens(platid) + Lex(rest).value;
    }
  }

  lemma LexFirstMember(second: string)
    ensures Lex("{" + ("\n\t" + ("\"" + "name" + "\"" + (":" + (" " + second))))) ==
            Prepend([LBrace, Text("name"), Colon], Lex(second))
  {
    var colon := ":" + (" " + second);
    LexMark('{', "\n\t" + ("\"" + "name" + "\"" + colon));
    LexBlank("\n\t", "\"" + "name" + "\"" + colon);
    LexQuoted("name", colon);
    LexMark(':', " " + second);
    LexBlank(" ", second);
    if Lex(second).Some? {
      assert [LBrace] + ([Text("name")] + ([Colon] + Lex(second).value)) ==
             [LBrace, Text("name"), Colon] + Lex(second).value;
    }
  }

  lemma LexSecondMember(name: string, rest: string)
    requires Plain(name)
    ensures Lex(SecondMember(name, rest)) == Prepend([Text(name), Comma, Text("modules"), Colon], Lex(rest))
  {
    var modules := "\"" + "modules" + "\"" + (":" + rest);
    LexQuoted(name, "," + ("\n\t" + modules));
    LexMark(',', "\n\t" + modules);
    LexBlank("\n\t", modules);
    LexQuoted("modules", ":" + rest);
    LexMark(':', rest);
    if Lex(rest).Some? {
      assert [Text(name)] + ([Comma] + ([Text("modules")] + ([Colon] + Lex(rest).value))) ==
             [Text(name), Comma, Text("modules"), Colon] + Lex(rest).value;
    }
  }

  lemma {:induction false} ItemsParse(names: seq<string>, rest: seq<Token>)
    requires names != []
    ensures ParseItems(ItemTokens(names) + rest) == Some((Texts(names), rest))
  {
    var ts := ItemTokens(names) + rest;
    if |names| == 1 {
      assert ts[1..][1..] == rest;
      assert Texts(names) == [JText(names[0])];
    } else {
      ItemsParse(names[1..], rest);
      assert ts[1..][1..] == ItemTokens(names[1..]) + rest;
    }
  }

  lemma ParseObject(first: seq<Token>)
    requires first != [] && first[0].Text?
    ensures ParseValue([LBrace] + first) ==
      match ParseMembers(first) case None => None case Some(p) => Some((JObject(p.0), p.1))
  {
    assert ([LBrace] + first)[1..] == first;
  }

  lemma ParseMember(key: string, ts: seq<Token>)
    ensures ParseMembers([Text(key), Colon] + ts) ==
      match ParseValue(ts)
      case None => None
      case Some(p) =>
        if p.1 == [] then None
        else if p.1[0] == RBrace then Some(([(key, p.0)], p.1[1..]))
        else if p.1[0] != Comma then None
        else match ParseMembers(p.1[1..]) case None => None case Some(q) => Some(([(key, p.0)] + q.0, q.1))
  {
    assert ([Text(key), Colon] + ts)[2..] == ts;
  }

  /** The two members, given what follows the second colon. */
  lemma HeadParse(platid: int, ts: seq<Token>)
    ensures ParseValue(ts).None? ==> ParseValue(HeadTokens(platid) + ts) == None
    ensures ParseValue(ts).Some? && ParseValue(ts).value.1 == [RBrace] ==>
      ParseValue(HeadTokens(platid) + ts) ==
      Some((JObject([("name", JText(PlatformName(platid))), ("modules", ParseValue(ts).value.0)]), []))
  {
    var name, second := PlatformName(platid), [Text("modules"), Colon] + ts;
    ParseMember("modules", ts);
    FirstMemberParse(name, second);
    assert HeadTokens(platid) + ts == [LBrace] + ([Text("name"), Colon] + ([Text(name), Comma] + second));
    if ParseValue(ts).Some? && ParseValue(ts).value.1 == [RBrace] {
      assert [("name", JText(name))] + [("modules", ParseValue(ts).value.0)] ==
             [("name", JText(name)), ("modules", ParseValue(ts).value.0)];
    }
  }

  lemma FirstMemberParse(name: string, second: seq<Token>)
    ensures ParseValue([LBrace] + ([Text("name"), Colon] + ([Text(name), Comma] + second))) ==
      match ParseMembers(second)
      case None => None
      case Some(q) => Some((JObject([("name", JText(name))] + q.0), q.1))
  {
    var value := [Text(name), Comma] + second;
    assert value[1..] == [Comma] + second && value[1..][1..] == second;
    ParseMember("name", value);
    ParseObject([Text("name"), Colon] + value);
  }

  function ListTokens(names: seq<string>): Option<seq<Token>> {
    if names == [] then Some([RBrack, RBrace]) else Prepend([LBrack], Lex(Rest(names)))
  }

  lemma LexDocument(platid: int, names: seq<string>)
    ensures Lex(Document(platid, names)) == Prepend(HeadTokens(platid), ListTokens(names))
  {
    DocumentParts(platid, names);
    if names == [] {
      LexHead(platid, "\n" + (MODULES_TAIL + TAIL));
      LexEnd();
    } else {
      LexHead(platid, "[\n" + Rest(names));
      LexOpen(Rest(names));
    }
  }

  lemma LexOpen(rest: string)
    ensures Lex("[\n" + rest) == Prepend([LBrack], Lex(rest))
  {
    LexMark('[', "\n" + rest);
    LexBlank("\n", rest);
    assert "[\n" + rest == "[" + ("\n" + rest);
  }

  /** The whole description: it reads back as the platform's name and the module names, in
      order, exactly when there is a name and every one fits; otherwise it is not JSON. */
  lemma DescriptionReadsBack(platid: int, names: seq<string>)
    requires AllPlain(names)
    ensures Parse(Document(platid, names)) == if Fits(names) then Some(Described(platid, names)) else None
  {
    LexDocument(platid, names);
    if names == [] {
      HeadParse(platid, [RBrack, RBrace]);
    } else {
      ReadRest(names);
      if Lex(Rest(names)).Some? {
        var items := Lex(Rest(names)).value;
        ListParse(names, items);
        HeadParse(platid, [LBrack] + items);
      }
    }
  }

  lemma ListParse(names: seq<string>, items: seq<Token>)
    requires names != []
    requires if Fits(names) then items == ItemTokens(names) + [RBrace] else Unreadable(Some(items))
    ensures ParseValue([LBrack] + items) ==
      if Fits(names) then Some((JArray(Texts(names)), [RBrace])) else None
  {
    assert ([LBrack] + items)[1..] == items;
    if Fits(names) {
      ItemsParse(names, [RBrace]);
    }
  }

  lemma {:induction false} TextsAt(names: seq<string>)
    ensures |Texts(names)| == |names| && forall i :: 0 <= i < |names| ==> Texts(names)[i] == JText(names[i])
  {
    if names != [] {
      TextsAt(names[1..]);
    }
  }

  /** The description, said out: for each platform of the enumeration (0 to 4, and every other number
      as generic) the name that is read back, and the module names one by one. */
  lemma DescriptionSays(platid: int, names: seq<string>) returns (name: string, items: seq<Json>)
    requires AllPlain(names) && Fits(names)
    ensures Parse(Document(platid, names)) == Some(JObject([("name", JText(name)), ("modules", JArray(items))]))
    ensures |items| == |names| && forall i :: 0 <= i < |names| ==> items[i] == JText(names[i])
    ensures platid == 1 ==> name == "ARTIK520"
    ensures platid == 2 ==> name == "ARTIK1020"
    ensures platid == 3 ==> name == "ARTIK710"
    ensures platid == 4 ==> name == "ARTIK530"
    ensures platid < 1 || platid > 4 ==> name == "GENERIC"
  {
    DescriptionReadsBack(platid, names);
    TextsAt(names);
    name, items := PlatformName(platid), Texts(names);
  }

  // ---------------------------------------------------------------- the buffer

  /** The buffer holds the string `s`, terminated. */
  ghost predicate Holds(buf: array<char>, s: string)
    reads buf
  {
    |s| < buf.Length && buf[..|s|] == s && buf[|s|] == '\0' && '\0' !in s
  }

  method Strlen(buf: array<char>, ghost s: string) returns (n: nat)
    requires Holds(buf, s)
    ensures n == |s|
  {
    n := 0;
    while buf[n] != '\0'
      invariant n <= |s|
      decreases |s| - n
    {
      n := n + 1;
    }
  }

  /** `strncat`: copies at most `n` characters and writes a terminator. */
  method Strncat(buf: array<char>, src: string, n: nat, ghost s: string)
    requires Holds(buf, s) && '\0' !in src && |src| <= n && |s| + |src| < buf.Length
    modifies buf
    ensures Holds(buf, s + src)
  {
    var end := Strlen(buf, s);
    var k := 0;
    while k < n && k < |src|
      invariant 0 <= k <= |src|
      invariant buf[..end] == s && forall j :: 0 <= j < k ==> buf[end + j] == src[j]
    {
      buf[end + k] := src[k];
      k := k + 1;
    }
    buf[end + k] := '\0';
    assert buf[..|s + src|] == s + src;
  }

  lemma NoNul(a: string, b: string)
    requires '\0' !in a && '\0' !in b
    ensures '\0' !in a + b
  {
  }

  lemma EntryNoNul(name: string)
    requires '\0' !in name
    ensures '\0' !in Entry(name)
  {
    NoNul("\t\"", name);
    NoNul("\t\"" + name, "\",\n");
  }

  lemma PlatformFits(platid: int)
    ensures '\0' !in Snprintf(PlatformText(PlatformName(platid)), MAX_PLATFORM_ENTRY)
    ensures |Snprintf(PlatformText(PlatformName(platid)), MAX_PLATFORM_ENTRY)| < MAX_PLATFORM_ENTRY
  {
    var name := PlatformName(platid);
    assert '\0' !in name;
    NoNul("\t\"name\": \"", name);
    NoNul("\t\"name\": \"" + name, "\",\n");
  }

  method WritePrefix(json: array<char>, platid: int)
    requires Holds(json, "") && json.Length > 39
    modifies json
    ensures Holds(json, Prefix(platid))
  {
    Strncat(json, HEADER, |HEADER|, "");
    assert "" + HEADER == HEADER;
    var entry := Snprintf(PlatformText(PlatformName(platid)), MAX_PLATFORM_ENTRY);
    PlatformFits(platid);
    Strncat(json, entry, MAX_PLATFORM_ENTRY, HEADER);
    Strncat(json, MODULES_HEADER, |MODULES_HEADER|, HEADER + entry);
  }

  lemma EntriesStep(text: string, names: seq<string>, i: nat)
    requires i < |names|
    ensures (text + Entry(names[i])) + Entries(names[i + 1..]) == text + Entries(names[i..])
  {
    assert names[i..][1..] == names[i + 1..];
    assert (text + Entry(names[i])) + Entries(names[i + 1..]) == text + (Entry(names[i]) + Entries(names[i + 1..]));
  }

  method WriteEntries(json: array<char>, names: seq<string>, ghost prefix: string)
    requires forall i :: 0 <= i < |names| ==> '\0' !in names[i]
    requires Holds(json, prefix) && |prefix| + (MAX_MODULE_ENTRY - 1) * |names| < json.Length
    modifies json
    ensures Holds(json, prefix + Entries(names))
  {
    ghost var text := prefix;
    for i := 0 to |names|
      invariant Holds(json, text) && |text| <= |prefix| + (MAX_MODULE_ENTRY - 1) * i
      invariant text + Entries(names[i..]) == prefix + Entries(names)
    {
      var entry := Entry(names[i]);
      EntryNoNul(names[i]);
      Strncat(json, entry, MAX_MODULE_ENTRY, text);
      EntriesStep(text, names, i);
      text := text + entry;
    }
  }

  /** `os_get_device_info`: no write leaves the buffer, whatever the module names, and what it
      holds at the end is the document. */
  method Describe(platid: int, names: seq<string>) returns (json: array<char>)
    requires forall i :: 0 <= i < |names| ==> '\0' !in names[i]
    ensures fresh(json) && json.Length == 46 + 17 * |names|
    ensures Holds(json, Document(platid, names))
  {
    var size := BufferSize(|names|);
    json := new char[size](_ => '\0');
    WritePrefix(json, platid);
    WriteEntries(json, names, Prefix(platid));
    ghost var text := Prefix(platid) + Entries(names);
    PatchComma(json, text);
    Strncat(json, MODULES_TAIL, |MODULES_TAIL|, Repair(text));
    Strncat(json, TAIL, |TAIL|, Repair(text) + MODULES_TAIL);
  }

  method PatchComma(json: array<char>, ghost text: string)
    requires Holds(json, text) && |text| >= 2
    modifies json
    ensures Holds(json, Repair(text))
  {
    var n := Strlen(json, text);
    json[n - 2] := '\n';
    json[n - 1] := '\0';
    assert json[..n - 1] == Repair(text);
  }
}
