/** The part of JSON the watch relay puts on the wire: `JSON.stringify` of a
    flat object whose values are strings, and `JSON.parse` of such an object
    back into its list of fields. Whitespace between tokens is not part of
    the model (the server never emits any). */
module Json {

  import opened Common
  import opened Strings

  /** An object's fields in the order they are written. */
  type Fields = seq<(string, string)>

  function HexDigit(n: nat): (c: char)
    requires n < 16
  {
    if n < 10 then ('0' as int + n) as char else ('a' as int + n - 10) as char
  }

  function HexValue(c: char): (r: Option<nat>)
    ensures r.Some? ==> r.value < 16
  {
    if '0' <= c <= '9' then Some(c as int - '0' as int)
    else if 'a' <= c <= 'f' then Some(c as int - 'a' as int + 10)
    else if 'A' <= c <= 'F' then Some(c as int - 'A' as int + 10)
    else None
  }

  lemma HexRoundTrip(n: nat)
    requires n < 16
    ensures HexValue(HexDigit(n)) == Some(n)
  {
  }

  /** How `JSON.stringify` writes one character inside a string literal. */
  function EscapeChar(c: char): string
  {
    if c == '"' then "\\\""
    else if c == '\\' then "\\\\"
    else if c == '\U{8}' then "\\b"
    else if c == '\U{C}' then "\\f"
    else if c == '\n' then "\\n"
    else if c == '\r' then "\\r"
    else if c == '\t' then "\\t"
    else if c < ' ' then "\\u00" + [HexDigit(c as int / 16), HexDigit(c as int % 16)]
    else [c]
  }

  function Escape(s: string): string
  {
    if s == [] then [] else EscapeChar(s[0]) + Escape(s[1..])
  }

  /** The body of a string literal is never broken by a control character,
      so in particular it never contains a line break. */
  lemma {:induction false} EscapeHasNoControl(s: string)
    ensures forall c :: c in Escape(s) ==> c >= ' '
  {
    if s != [] {
      EscapeHasNoControl(s[1..]);
      assert Escape(s) == EscapeChar(s[0]) + Escape(s[1..]);
    }
  }

  /** Characters `JSON.stringify` leaves as they are. */
  predicate IsPlain(c: char)
  {
    c >= ' ' && c != '"' && c != '\\'
  }

  lemma {:induction false} EscapePlain(s: string)
    requires forall i :: 0 <= i < |s| ==> IsPlain(s[i])
    ensures Escape(s) == s
  {
    if s != [] {
      EscapePlain(s[1..]);
      assert s == [s[0]] + s[1..];
    }
  }

  /** The character a `\` escape stands for, given the text after the `\`,
      and the text after the escape. */
  function ParseEscape(s: string): (r: Option<(char, string)>)
    ensures r.Some? ==> |r.value.1| < |s|
  {
    if s == [] then None
    else if s[0] == '"' then Some(('"', s[1..]))
    else if s[0] == '\\' then Some(('\\', s[1..]))
    else if s[0] == '/' then Some(('/', s[1..]))
    else if s[0] == 'b' then Some(('\U{8}', s[1..]))
    else if s[0] == 'f' then Some(('\U{C}', s[1..]))
    else if s[0] == 'n' then Some(('\n', s[1..]))
    else if s[0] == 'r' then Some(('\r', s[1..]))
    else if s[0] == 't' then Some(('\t', s[1..]))
    else if s[0] == 'u' && |s| >= 5 then
      match CodeUnit(s[1..5])
      case None => None
      // A UTF-16 surrogate half is not a character of its own.
      case Some(code) => if 0xD800 <= code < 0xE000 then None else Some((code as char, s[5..]))
    else None
  }

  /** The value of four hexadecimal digits. */
  function CodeUnit(h: string): (r: Option<nat>)
    requires |h| == 4
    ensures r.Some? ==> r.value < 0x1_0000
  {
    match (HexValue(h[0]), HexValue(h[1]), HexValue(h[2]), HexValue(h[3]))
    case (Some(a), Some(b), Some(c), Some(d)) =>
      assert a * 16 + b < 256;
      assert (a * 16 + b) * 16 + c < 4096;
      Some(((a * 16 + b) * 16 + c) * 16 + d)
    case _ => None
  }

  /** `JSON.parse` of the rest of a string literal whose opening `"` has been
      read: its value and the text after the closing `"`. */
  function ParseString(s: string): (r: Option<(string, string)>)
    ensures r.Some? ==> |r.value.1| < |s|
    decreases |s|
  {
    if s == [] then None
    else if s[0] == '"' then Some(([], s[1..]))
    else if s[0] < ' ' then None
    else if s[0] == '\\' then
      match ParseEscape(s[1..])
      case None => None
      case Some((c, rest)) =>
        match ParseString(rest)
        case None => None
        case Some((v, after)) => Some(([c] + v, after))
    else
      match ParseString(s[1..])
      case None => None
      case Some((v, after)) => Some(([s[0]] + v, after))
  }

  lemma EscapeCharParses(c: char, t: string)
    ensures ParseString(EscapeChar(c) + t) ==
      match ParseString(t)
      case None => None
      case Some((v, after)) => Some(([c] + v, after))
  {
    var e := EscapeChar(c);
    if c < ' ' && c != '\U{8}' && c != '\U{C}' && c != '\n' && c != '\r' && c != '\t' {
      var hi, lo := c as int / 16, c as int % 16;
      HexRoundTrip(hi);
      HexRoundTrip(lo);
      assert (e + t)[1..] == "u00" + [HexDigit(hi), HexDigit(lo)] + t;
      assert ((e + t)[1..])[5..] == t;
    } else if |e| == 2 {
      assert (e + t)[1..] == [e[1]] + t;
      assert ((e + t)[1..])[1..] == t;
    } else {
      assert (e + t)[1..] == t;
    }
  }

  /** Parsing undoes escaping: the escaped text followed by a closing quote
      reads back as the original string. */
  lemma {:induction false} StringRoundTrip(s: string, rest: string)
    ensures ParseString(Escape(s) + "\"" + rest) == Some((s, rest))
  {
    if s == [] {
      assert Escape(s) + "\"" + rest == "\"" + rest;
      assert ("\"" + rest)[1..] == rest;
    } else {
      StringRoundTrip(s[1..], rest);
      assert Escape(s) + "\"" + rest == EscapeChar(s[0]) + (Escape(s[1..]) + "\"" + rest);
      EscapeCharParses(s[0], Escape(s[1..]) + "\"" + rest);
      assert [s[0]] + s[1..] == s;
    }
  }

  /** `JSON.stringify` of one field, `"key":"value"`. */
  function FieldText(f: (string, string)): string
  {
    "\"" + Escape(f.0) + "\":\"" + Escape(f.1) + "\""
  }

  function MembersText(fs: Fields): string
  {
    if fs == [] then []
    else if |fs| == 1 then FieldText(fs[0])
    else FieldText(fs[0]) + "," + MembersText(fs[1..])
  }

  /** `JSON.stringify` of a flat object of strings. */
  function Stringify(fs: Fields): (r: string)
  {
    "{" + MembersText(fs) + "}"
  }

  /** The serialised object holds no control character, so no line break. */
  lemma {:induction false} StringifyHasNoControl(fs: Fields)
    ensures forall c :: c in Stringify(fs) ==> c >= ' '
  {
    MembersHaveNoControl(fs);
  }

  lemma {:induction false} MembersHaveNoControl(fs: Fields)
    ensures forall c :: c in MembersText(fs) ==> c >= ' '
  {
    if fs != [] {
      var k, v := Escape(fs[0].0), Escape(fs[0].1);
      EscapeHasNoControl(fs[0].0);
      EscapeHasNoControl(fs[0].1);
      FieldNoControl(k, v);
      if |fs| > 1 {
        MembersHaveNoControl(fs[1..]);
        assert MembersText(fs) == FieldText(fs[0]) + "," + MembersText(fs[1..]);
        JoinNoControl(FieldText(fs[0]), MembersText(fs[1..]));
      }
    }
  }

  lemma FieldNoControl(k: string, v: string)
    requires forall c :: c in k ==> c >= ' '
    requires forall c :: c in v ==> c >= ' '
    ensures forall c :: c in "\"" + k + "\":\"" + v + "\"" ==> c >= ' '
  {
  }

  lemma JoinNoControl(a: string, b: string)
    requires forall c :: c in a ==> c >= ' '
    requires forall c :: c in b ==> c >= ' '
    ensures forall c :: c in a + "," + b ==> c >= ' '
  {
  }

  /** Reads one `"key":"value"` field; returns it with the text after it. */
  function ParseField(s: string): (r: Option<((string, string), string)>)
    ensures r.Some? ==> |r.value.1| < |s|
  {
    if s == [] || s[0] != '"' then None
    else
      var k := ParseString(s[1..]);
      if k.None? || !IsPrefix(":\"", k.value.1) then None
      else
        var v := ParseString(k.value.1[2..]);
        if v.None? then None
        else Some(((k.value.0, v.value.0), v.value.1))
  }

  /** Reads fields separated by `,` up to the closing `}`, which must end
      the text. */
  function ParseMembers(s: string): (r: Option<Fields>)
    decreases |s|
  {
    var field := ParseField(s);
    if field.None? then None
    else
      var (f, u) := field.value;
      if u == "}" then Some([f])
      else if u != [] && u[0] == ',' then
        var more := ParseMembers(u[1..]);
        if more.None? then None else Some([f] + more.value)
      else None
  }

  /** `JSON.parse` of a flat object of strings; `None` where `JSON.parse`
      would throw (and for any text that is not such an object). */
  function Parse(s: string): (r: Option<Fields>)
  {
    if s == "{}" then Some([])
    else if s == [] || s[0] != '{' then None
    else ParseMembers(s[1..])
  }

  /** Reading one serialised field. */
  lemma FieldParses(f: (string, string), tail: string)
    ensures ParseField(FieldText(f) + tail) == Some((f, tail))
  {
    var k, v := Escape(f.0), Escape(f.1);
    FieldShape(k, v, tail);
    StringRoundTrip(f.0, ":\"" + (v + "\"" + tail));
    StringRoundTrip(f.1, tail);
  }

  /** Where the pieces of a serialised field are. */
  lemma FieldShape(k: string, v: string, tail: string)
    ensures var whole := "\"" + k + "\":\"" + v + "\"" + tail;
      && whole[0] == '"'
      && whole[1..] == k + "\"" + (":\"" + (v + "\"" + tail))
    ensures var x := ":\"" + (v + "\"" + tail);
      IsPrefix(":\"", x) && x[2..] == v + "\"" + tail
  {
    var x := ":\"" + (v + "\"" + tail);
    assert x[..2] == ":\"";
  }

  lemma MembersTextCons(fs: Fields)
    requires |fs| > 1
    ensures MembersText(fs) + "}" == FieldText(fs[0]) + ("," + (MembersText(fs[1..]) + "}"))
  {
    assert MembersText(fs) == FieldText(fs[0]) + "," + MembersText(fs[1..]);
    CommaAssoc(FieldText(fs[0]), MembersText(fs[1..]));
  }

  lemma CommaAssoc(a: string, b: string)
    ensures a + "," + b + "}" == a + ("," + (b + "}"))
  {
  }

  /** The last field, then the closing brace. */
  lemma ParseMembersLast(f: (string, string))
    ensures ParseMembers(FieldText(f) + "}") == Some([f])
  {
    FieldParses(f, "}");
  }

  /** A field, a comma, and the rest of the members. */
  lemma ParseMembersNext(f: (string, string), body: string)
    ensures ParseMembers(FieldText(f) + ("," + body)) ==
      var more := ParseMembers(body); if more.None? then None else Some([f] + more.value)
  {
    FieldParses(f, "," + body);
    assert ("," + body)[0] == ',' && ("," + body)[1..] == body;
  }

  lemma {:induction false} MembersRoundTrip(fs: Fields)
    requires fs != []
    ensures ParseMembers(MembersText(fs) + "}") == Some(fs)
  {
    if |fs| == 1 {
      ParseMembersLast(fs[0]);
      assert [fs[0]] == fs;
    } else {
      MembersTextCons(fs);
      ParseMembersNext(fs[0], MembersText(fs[1..]) + "}");
      MembersRoundTrip(fs[1..]);
      assert [fs[0]] + fs[1..] == fs;
    }
  }

  lemma MembersTextStartsWithQuote(fs: Fields)
    requires fs != []
    ensures |MembersText(fs)| > 0 && MembersText(fs)[0] == '"'
  {
    assert FieldText(fs[0])[0] == '"';
  }

  /** Parsing undoes stringifying. */
  lemma ParseStringify(fs: Fields)
    ensures Parse(Stringify(fs)) == Some(fs)
  {
    if fs != [] {
      var t := MembersText(fs);
      MembersTextStartsWithQuote(fs);
      MembersRoundTrip(fs);
      var whole := Stringify(fs);
      assert whole == "{" + t + "}";
      assert |whole| > 2 && whole[0] == '{';
      assert whole[1..] == t + "}";
    }
  }

  /** `obj[key]` after `JSON.parse`: the last field with that key wins. */
  function Lookup(fs: Fields, key: string): (r: Option<string>)
    ensures r.Some? ==> (key, r.value) in fs
    ensures r.None? ==> forall i :: 0 <= i < |fs| ==> fs[i].0 != key
  {
    if fs == [] then None
    else if fs[|fs| - 1].0 == key then Some(fs[|fs| - 1].1)
    else Lookup(fs[..|fs| - 1], key)
  }
}
