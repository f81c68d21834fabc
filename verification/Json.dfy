/** A reader for the part of JSON that the device description uses: sections 2 (white space
    and structural characters), 4 (objects), 5 (arrays) and 7 (strings, without escapes) of
    RFC 8259. What it accepts is JSON; numbers, literals and escapes it does not accept. */
module Json {
  import opened ArtikTypes

  datatype Token = LBrace | RBrace | LBrack | RBrack | Colon | Comma | Text(s: string)

  datatype Json = JText(s: string) | JArray(items: seq<Json>) | JObject(members: seq<(string, Json)>)

  /** The characters that may stand in a string as themselves. */
  predicate Unescaped(c: char) {
    c >= ' ' && c != '"' && c != '\\'
  }

  predicate Plain(s: string) {
    forall i :: 0 <= i < |s| ==> Unescaped(s[i])
  }

  predicate Space(c: char) {
    c == ' ' || c == '\t' || c == '\n' || c == '\r'
  }

  // ---------------------------------------------------------------- tokens

  function Prepend(ts: seq<Token>, rest: Option<seq<Token>>): Option<seq<Token>> {
    match rest
    case None => None
    case Some(us) => Some(ts + us)
  }

  /** The rest of a string whose opening quote has been read: its characters and what follows. */
  function LexText(s: string): (r: Option<(string, string)>)
    ensures r.Some? ==> |r.value.1| < |s|
  {
    if s == "" then None
    else if s[0] == '"' then Some(("", s[1..]))
    else if !Unescaped(s[0]) then None
    else
      match LexText(s[1..])
      case None => None
      case Some(p) => Some(([s[0]] + p.0, p.1))
  }

  function Structural(c: char): Option<Token> {
    match c
    case '{' => Some(LBrace)
    case '}' => Some(RBrace)
    case '[' => Some(LBrack)
    case ']' => Some(RBrack)
    case ':' => Some(Colon)
    case ',' => Some(Comma)
    case _ => None
  }

  function Lex(s: string): Option<seq<Token>>
    decreases |s|
  {
    if s == "" then Some([])
    else if Space(s[0]) then Lex(s[1..])
    else if s[0] == '"' then
      match LexText(s[1..])
      case None => None
      case Some(p) => Prepend([Text(p.0)], Lex(p.1))
    else
      match Structural(s[0])
      case None => None
      case Some(t) => Prepend([t], Lex(s[1..]))
  }

  // ---------------------------------------------------------------- values

  function ParseValue(ts: seq<Token>): (r: Option<(Json, seq<Token>)>)
    ensures r.Some? ==> |r.value.1| < |ts|
    decreases |ts|, 0
  {
    if ts == [] then None
    else
      match ts[0]
      case Text(s) => Some((JText(s), ts[1..]))
      case LBrack =>
        if |ts| > 1 && ts[1] == RBrack then Some((JArray([]), ts[2..]))
        else
          (match ParseItems(ts[1..])
           case None => None
           case Some(p) => Some((JArray(p.0), p.1)))
      case LBrace =>
        if |ts| > 1 && ts[1] == RBrace then Some((JObject([]), ts[2..]))
        else
          (match ParseMembers(ts[1..])
           case None => None
           case Some(p) => Some((JObject(p.0), p.1)))
      case _ => None
  }

  /** One or more values and the closing bracket. */
  function ParseItems(ts: seq<Token>): (r: Option<(seq<Json>, seq<Token>)>)
    ensures r.Some? ==> |r.value.1| < |ts|
    decreases |ts|, 1
  {
    match ParseValue(ts)
    case None => None
    case Some(p) =>
      if p.1 == [] then None
      else if p.1[0] == RBrack then Some(([p.0], p.1[1..]))
      else if p.1[0] != Comma then None
      else
        match ParseItems(p.1[1..])
        case None => None
        case Some(q) => Some(([p.0] + q.0, q.1))
  }

  /** One or more members and the closing brace. */
  function ParseMembers(ts: seq<Token>): (r: Option<(seq<(string, Json)>, seq<Token>)>)
    ensures r.Some? ==> |r.value.1| < |ts|
    decreases |ts|, 1
  {
    if |ts| < 2 || !ts[0].Text? || ts[1] != Colon then None
    else
      match ParseValue(ts[2..])
      case None => None
      case Some(p) =>
        if p.1 == [] then None
        else if p.1[0] == RBrace then Some(([(ts[0].s, p.0)], p.1[1..]))
        else if p.1[0] != Comma then None
        else
          match ParseMembers(p.1[1..])
          case None => None
          case Some(q) => Some(([(ts[0].s, p.0)] + q.0, q.1))
  }

  function Parse(s: string): Option<Json> {
    match Lex(s)
    case None => None
    case Some(ts) =>
      match ParseValue(ts)
      case None => None
      case Some(p) => if p.1 == [] then Some(p.0) else None
  }

  // ---------------------------------------------------------------- reading what was written

  lemma {:induction false} LexTextClosed(s: string, rest: string)
    requires Plain(s)
    ensures LexText(s + ("\"" + rest)) == Some((s, rest))
  {
    var t := s + ("\"" + rest);
    if s == "" {
      assert t == "\"" + rest && t[1..] == rest;
    } else {
      LexTextClosed(s[1..], rest);
      assert t[1..] == s[1..] + ("\"" + rest);
      assert s == [s[0]] + s[1..];
    }
  }

  /** A control character before the closing quote is an error. */
  lemma {:induction false} LexTextBroken(s: string, rest: string)
    requires Plain(s) && rest != "" && rest[0] < ' '
    ensures LexText(s + rest) == None
  {
    var t := s + rest;
    if s == "" {
      assert t == rest;
    } else {
      LexTextBroken(s[1..], rest);
      assert t[1..] == s[1..] + rest;
    }
  }

  lemma {:induction false} LexBlank(s: string, rest: string)
    requires forall i :: 0 <= i < |s| ==> Space(s[i])
    ensures Lex(s + rest) == Lex(rest)
  {
    if s == "" {
      assert s + rest == rest;
    } else {
      LexBlank(s[1..], rest);
      assert (s + rest)[1..] == s[1..] + rest;
    }
  }

  lemma LexMark(c: char, rest: string)
    requires Structural(c).Some?
    ensures Lex([c] + rest) == Prepend([Structural(c).value], Lex(rest))
  {
    assert ([c] + rest)[1..] == rest;
  }

  lemma LexQuoted(s: string, rest: string)
    requires Plain(s)
    ensures Lex("\"" + s + "\"" + rest) == Prepend([Text(s)], Lex(rest))
  {
    var t := "\"" + s + "\"" + rest;
    LexTextClosed(s, rest);
    assert t[0] == '"' && t[1..] == s + ("\"" + rest);
  }

  lemma PrependTwice(a: seq<Token>, b: seq<Token>, r: Option<seq<Token>>)
    ensures Prepend(a, Prepend(b, r)) == Prepend(a + b, r)
  {
    if r.Some? {
      assert a + (b + r.value) == a + b + r.value;
    }
  }
}
