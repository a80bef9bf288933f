/** The JSON text inside a jar.  `Document` is what encoding/json writes for a list of entries; the
    reader is a parameter everywhere else, held only to inverting that writer, and `Read` below is one. */
module JarJson {
  import opened Wrappers
  import opened Utf8
  import opened Numerals

  /** One add-on cookie inside a jar; `exp` is the absolute unix second it dies, zero in the session jar. */
  datatype Entry = Entry(name: string, value: string, exp: Int64)

  // ---- the writer ------------------------------------------------------------------------------

  /** encoding/json's string escapes, with the HTML-safe set on, as Marshal has it. */
  function EscapeChar(c: char): (s: string)
    ensures |s| >= 1
  {
    if c == '"' then "\\\""
    else if c == '\\' then "\\\\"
    else if c == 8 as char then "\\b"
    else if c == 12 as char then "\\f"
    else if c == '\n' then "\\n"
    else if c == '\r' then "\\r"
    else if c == '\t' then "\\t"
    else if NeedsHex(c) then "\\u" + Hex(c as int, 4)
    else [c]
  }

  predicate NeedsHex(c: char) {
    c < 32 as char || c == '<' || c == '>' || c == '&' || c == 0x2028 as char || c == 0x2029 as char
  }

  function Escape(s: string): string {
    if s == "" then "" else EscapeChar(s[0]) + Escape(s[1..])
  }

  function Signed(n: int): (s: string)
    ensures |s| >= 1
  {
    if n < 0 then "-" + Decimal(-n) else Decimal(n)
  }

  const NAME_KEY := "{\"n\":\""
  const VALUE_KEY := ",\"v\":\""
  const EXPIRY_KEY := ",\"e\":"

  /** A key, already opened, then the escaped text and its closing quote. */
  function Field(key: string, text: string): string { key + Escape(text) + "\"" }

  /** The expiry is omitted when it is zero. */
  function ExpiryField(exp: Int64): string { if exp == 0 then "" else EXPIRY_KEY + Signed(exp) }

  function EntryText(e: Entry): (s: string)
    ensures |s| > 0 && s[0] == '{'
  {
    Field(NAME_KEY, e.name) + Field(VALUE_KEY, e.value) + ExpiryField(e.exp) + "}"
  }

  /** Entries separated by commas, then the closing bracket. */
  function Items(es: seq<Entry>): (s: string)
    ensures |s| >= 1
    ensures es != [] ==> s[0] == '{'
  {
    if es == [] then "]"
    else if |es| == 1 then EntryText(es[0]) + "]"
    else EntryText(es[0]) + "," + Items(es[1..])
  }

  function Document(es: seq<Entry>): string { "[" + Items(es) }

  function Marshal(es: seq<Entry>): seq<Byte> { Utf8.Encode(Document(es)) }

  /** The runes of a document as encoding/json writes one: no control characters, nothing HTML gives a meaning to and
      neither of the line separators JavaScript does. */
  predicate Safe(c: char) {
    c as int >= 32 && c !in "<>&" && c as int != 0x2028 && c as int != 0x2029
  }

  lemma {:induction false} HexIsSafe(n: nat, digits: nat)
    ensures forall i :: 0 <= i < digits ==> Safe(Hex(n, digits)[i])
  {
    if digits > 0 { HexIsSafe(n / 16, digits - 1); }
  }

  lemma {:induction false} EscapeIsSafe(s: string)
    ensures forall c :: c in Escape(s) ==> Safe(c)
  {
    if s != "" {
      EscapeIsSafe(s[1..]);
      HexIsSafe(s[0] as int, 4);
    }
  }

  /** A text of safe runes with no quote or backslash in it is written as it is, and no other is. */
  lemma {:induction false} EscapesExactly(s: string)
    ensures Escape(s) == s <==> forall c :: c in s ==> Safe(c) && c != '"' && c != '\\'
    ensures |Escape(s)| >= |s|
  {
    if s != "" {
      EscapesExactly(s[1..]);
      assert s == [s[0]] + s[1..];
      if EscapeChar(s[0]) == [s[0]] {
        assert Escape(s)[1..] == Escape(s[1..]);
      } else {
        assert s[0] in s && |EscapeChar(s[0])| > 1;
      }
    }
  }

  ghost predicate AllSafe(s: string) { forall c :: c in s ==> Safe(c) }

  lemma SafeAppend(a: string, b: string)
    requires AllSafe(a) && AllSafe(b)
    ensures AllSafe(a + b)
  {
  }

  lemma ExpiryIsSafe(exp: Int64)
    ensures AllSafe(ExpiryField(exp))
  {
    var n: int := exp;
    DecimalIsDigits(if n < 0 then -n else n);
    hide Decimal;
    assert AllSafe(EXPIRY_KEY) && AllSafe("-");
    var digits := Decimal(if n < 0 then -n else n);
    forall c | c in digits ensures Safe(c) {
      var i :| 0 <= i < |digits| && digits[i] == c;
    }
  }

  lemma KeysAreSafe()
    ensures AllSafe(NAME_KEY) && AllSafe(VALUE_KEY) && AllSafe("\"") && AllSafe("}") && AllSafe("]") && AllSafe(",") && AllSafe("[")
  {
  }

  lemma FieldIsSafe(key: string, text: string)
    requires AllSafe(key)
    ensures AllSafe(Field(key, text))
  {
    EscapeIsSafe(text);
    KeysAreSafe();
    hide Escape, AllSafe;
    SafeAppend(key, Escape(text));
    SafeAppend(key + Escape(text), "\"");
  }

  lemma EntryIsSafe(e: Entry)
    ensures AllSafe(EntryText(e))
  {
    KeysAreSafe();
    hide Field, ExpiryField, AllSafe;
    FieldIsSafe(NAME_KEY, e.name);
    FieldIsSafe(VALUE_KEY, e.value);
    ExpiryIsSafe(e.exp);
    SafeAppend(Field(NAME_KEY, e.name), Field(VALUE_KEY, e.value));
    SafeAppend(Field(NAME_KEY, e.name) + Field(VALUE_KEY, e.value), ExpiryField(e.exp));
    SafeAppend(Field(NAME_KEY, e.name) + Field(VALUE_KEY, e.value) + ExpiryField(e.exp), "}");
  }

  lemma {:induction false} ItemsAreSafe(es: seq<Entry>)
    ensures AllSafe(Items(es))
  {
    KeysAreSafe();
    hide EntryText, AllSafe;
    if es != [] {
      EntryIsSafe(es[0]);
      SafeAppend(EntryText(es[0]), "]");
      SafeAppend(EntryText(es[0]), ",");
      if |es| > 1 {
        ItemsAreSafe(es[1..]);
        SafeAppend(EntryText(es[0]) + ",", Items(es[1..]));
      }
    }
  }

  /** No document holds any other, whatever the names and values. */
  lemma DocumentIsSafe(es: seq<Entry>)
    ensures forall c :: c in Document(es) ==> Safe(c)
  {
    ItemsAreSafe(es);
    KeysAreSafe();
    hide Items;
    SafeAppend("[", Items(es));
  }

  /** Dropping the first entry of a longer list makes the encoding strictly shorter. */
  lemma MarshalShrinks(es: seq<Entry>)
    requires |es| >= 1
    ensures |Marshal(es[1..])| < |Marshal(es)|
  {
    EncodeLength(Document(es));
    EncodeLength(Document(es[1..]));
    ByteLenAppend("[", Items(es));
    ByteLenAppend("[", Items(es[1..]));
    var head := EntryText(es[0]);
    ByteLenAtLeastLength(head);
    if |es| == 1 {
      ByteLenAppend(head, "]");
    } else {
      assert Items(es) == (head + ",") + Items(es[1..]);
      ByteLenAppend(head + ",", Items(es[1..]));
      ByteLenAppend(head, ",");
    }
  }

  // ---- a reader --------------------------------------------------------------------------------

  type Reader = seq<Byte> -> Option<seq<Entry>>

  /** What is asked of a reader: it gives back what the writer wrote.  Nothing is asked about other input. */
  ghost predicate Inverts(read: Reader) { forall es :: read(Marshal(es)) == Some(es) }

  function Expect(lit: string, s: string): (r: Option<string>)
    ensures r.Some? ==> |r.value| + |lit| == |s| && s == lit + r.value
  {
    if lit <= s then Some(s[|lit|..]) else None
  }

  function ReadShortEscape(c: char): Option<char> {
    if c == '"' then Some('"')
    else if c == '\\' then Some('\\')
    else if c == 'b' then Some(8 as char)
    else if c == 'f' then Some(12 as char)
    else if c == 'n' then Some('\n')
    else if c == 'r' then Some('\r')
    else if c == 't' then Some('\t')
    else None
  }

  function ReadChar(s: string): (r: Option<(char, string)>)
    ensures r.Some? ==> |r.value.1| < |s|
  {
    if s == "" then None
    else if s[0] != '\\' then Some((s[0], s[1..]))
    else if |s| < 2 then None
    else if s[1] != 'u' then
      (match ReadShortEscape(s[1]) case None => None case Some(c) => Some((c, s[2..])))
    else if |s| < 6 then None
    else match ReadHex(s[2..6])
      case None => None
      case Some(x) => if IsScalar(x) then Some((x as char, s[6..])) else None
  }

  /** Reads a string literal up to and including its closing quote. */
  function ReadString(s: string): (r: Option<(string, string)>)
    ensures r.Some? ==> |r.value.1| < |s|
    decreases |s|
  {
    if s == "" then None
    else if s[0] == '"' then Some(("", s[1..]))
    else match ReadChar(s)
      case None => None
      case Some((c, rest)) =>
        match ReadString(rest)
        case None => None
        case Some((text, tail)) => Some(([c] + text, tail))
  }

  function ReadField(key: string, s: string): Option<(string, string)> {
    match Expect(key, s) case None => None case Some(text) => ReadString(text)
  }

  function ReadSigned(s: string): Option<(int, string)> {
    if s == "" then None
    else if s[0] == '-' then Some((0 - ReadDigits(0, s[1..]).0, ReadDigits(0, s[1..]).1))
    else Some((ReadDigits(0, s).0, ReadDigits(0, s).1))
  }

  /** After the value: the end of the object, or the expiry and then the end. */
  function ReadExpiry(s: string): Option<(Int64, string)> {
    if s != "" && s[0] == '}' then Some((0, s[1..]))
    else match Expect(EXPIRY_KEY, s)
      case None => None
      case Some(number) =>
        match ReadSigned(number)
        case None => None
        case Some((n, tail)) =>
          if tail != "" && tail[0] == '}' && IsInt64(n) then Some((n, tail[1..])) else None
  }

  function ReadEntry(s: string): Option<(Entry, string)> {
    match ReadField(NAME_KEY, s)
    case None => None
    case Some((name, s2)) =>
      match ReadField(VALUE_KEY, s2)
      case None => None
      case Some((value, s3)) =>
        match ReadExpiry(s3)
        case None => None
        case Some((exp, rest)) => Some((Entry(name, value, exp), rest))
  }

  predicate IsClose(s: string) { |s| == 1 && s[0] == ']' }

  function ReadItems(s: string, fuel: nat): Option<seq<Entry>>
    decreases fuel
  {
    if IsClose(s) then Some([])
    else if fuel == 0 then None
    else match ReadEntry(s)
      case None => None
      case Some((e, rest)) =>
        if IsClose(rest) then Some([e])
        else if rest == "" || rest[0] != ',' then None
        else match ReadItems(rest[1..], fuel - 1)
          case None => None
          case Some(es) => Some([e] + es)
  }

  /** The number of characters bounds the number of entries. */
  function ReadDocument(s: string): Option<seq<Entry>> {
    match Expect("[", s) case None => None case Some(items) => ReadItems(items, |items|)
  }

  function Read(b: seq<Byte>): Option<seq<Entry>> {
    match Utf8.Decode(b) case None => None case Some(s) => ReadDocument(s)
  }

  // ---- reading back what was written -------------------------------------------------------------

  lemma ExpectLiteral(lit: string, rest: string)
    ensures Expect(lit, lit + rest) == Some(rest)
  {
    assert lit <= lit + rest && (lit + rest)[|lit|..] == rest;
  }

  lemma ReadEscapedChar(c: char, rest: string)
    ensures ReadChar(EscapeChar(c) + rest) == Some((c, rest)) && EscapeChar(c)[0] != '"'
  {
    var e := EscapeChar(c);
    var s := e + rest;
    assert s[|e|..] == rest;
    assert s[0] == e[0];
    if |e| == 2 {
      assert s[1] == e[1];
    } else if |e| == 6 {
      assert s[1] == 'u';
      assert s[2..6] == Hex(c as int, 4);
      assert Pow16(4) == 65536;
      ReadWrittenHex(c as int, 4);
    }
  }

  lemma ReadOneChar(s: string, c: char, rest: string, text: string, tail: string)
    requires s != "" && s[0] != '"'
    requires ReadChar(s) == Some((c, rest)) && ReadString(rest) == Some((text, tail))
    ensures ReadString(s) == Some(([c] + text, tail))
  {}

  lemma Regroup4(a: string, b: string, c: string, d: string)
    ensures a + b + c + d == a + (b + c + d)
  {}

  lemma {:induction false} ReadEscaped(text: string, rest: string)
    ensures ReadString(Escape(text) + "\"" + rest) == Some((text, rest))
  {
    if text == "" {
      assert Escape(text) + "\"" + rest == "\"" + rest;
      assert ("\"" + rest)[1..] == rest;
    } else {
      var more := Escape(text[1..]) + "\"" + rest;
      Regroup4(EscapeChar(text[0]), Escape(text[1..]), "\"", rest);
      ReadEscapedChar(text[0], more);
      ReadEscaped(text[1..], rest);
      ReadOneChar(EscapeChar(text[0]) + more, text[0], more, text[1..], rest);
      assert [text[0]] + text[1..] == text;
    }
  }

  lemma ReadWrittenField(key: string, text: string, rest: string)
    ensures ReadField(key, Field(key, text) + rest) == Some((text, rest))
  {
    var tail := Escape(text) + "\"" + rest;
    assert Field(key, text) + rest == key + tail;
    ExpectLiteral(key, tail);
    ReadEscaped(text, rest);
  }

  lemma ReadWrittenNumber(n: int, rest: string)
    requires rest != "" && !IsDigit(rest[0])
    ensures ReadSigned(Signed(n) + rest) == Some((n, rest))
  {
    var m: nat := if n < 0 then -n else n;
    var s := Signed(n) + rest;
    assert ReadDigits(0, Decimal(m) + rest) == (m, rest) by { ReadDecimal(m, rest); }
    if n < 0 {
      assert s[0] == '-' && s[1..] == Decimal(m) + rest;
    } else {
      DecimalIsDigits(m);
      assert s[0] == Decimal(m)[0] && s[0] != '-';
    }
  }

  lemma ReadWrittenExpiry(exp: Int64, rest: string)
    ensures ReadExpiry(ExpiryField(exp) + ("}" + rest)) == Some((exp, rest))
  {
    var close := "}" + rest;
    assert close[1..] == rest;
    if exp == 0 {
      assert ExpiryField(exp) + close == close;
    } else {
      hide ReadSigned, Signed, Expect;
      var s := ExpiryField(exp) + close;
      Regroup3(EXPIRY_KEY, Signed(exp), close);
      ExpectLiteral(EXPIRY_KEY, Signed(exp) + close);
      ReadWrittenNumber(exp, close);
      assert s[0] == ',';
    }
  }

  lemma Regroup(a: string, b: string, c: string, d: string, rest: string)
    ensures a + b + c + d + rest == a + (b + (c + (d + rest)))
  {}

  lemma ReadWrittenEntry(e: Entry, rest: string)
    ensures ReadEntry(EntryText(e) + rest) == Some((e, rest))
  {
    var s3 := ExpiryField(e.exp) + ("}" + rest);
    var s2 := Field(VALUE_KEY, e.value) + s3;
    Regroup(Field(NAME_KEY, e.name), Field(VALUE_KEY, e.value), ExpiryField(e.exp), "}", rest);
    ReadWrittenField(NAME_KEY, e.name, s2);
    ReadWrittenField(VALUE_KEY, e.value, s3);
    ReadWrittenExpiry(e.exp, rest);
  }

  lemma ReadOneMore(e: Entry, more: string, es: seq<Entry>, fuel: nat)
    requires fuel > 0 && ReadItems(more, fuel - 1) == Some(es)
    ensures ReadItems(EntryText(e) + ("," + more), fuel) == Some([e] + es)
  {
    var rest := "," + more;
    var s := EntryText(e) + rest;
    assert s[0] == '{';
    ReadWrittenEntry(e, rest);
    assert rest[0] == ',' && rest[1..] == more;
  }

  lemma ReadLast(e: Entry, fuel: nat)
    requires fuel > 0
    ensures ReadItems(EntryText(e) + "]", fuel) == Some([e])
  {
    assert (EntryText(e) + "]")[0] == '{';
    ReadWrittenEntry(e, "]");
  }

  lemma Regroup3(a: string, b: string, c: string)
    ensures a + b + c == a + (b + c)
  {}

  ghost predicate ReadsBack(es: seq<Entry>, fuel: nat) { ReadItems(Items(es), fuel) == Some(es) }

  lemma ReadManyItems(es: seq<Entry>, fuel: nat)
    requires |es| > 1 && fuel > 0 && ReadsBack(es[1..], fuel - 1)
    ensures ReadsBack(es, fuel)
  {
    ReadOneMore(es[0], Items(es[1..]), es[1..], fuel);
    Regroup3(EntryText(es[0]), ",", Items(es[1..]));
    assert [es[0]] + es[1..] == es;
  }

  lemma ReadFewItems(es: seq<Entry>, fuel: nat)
    requires |es| <= 1 && fuel >= |es|
    ensures ReadsBack(es, fuel)
  {
    if |es| == 1 {
      ReadLast(es[0], fuel);
      assert [es[0]] == es;
    } else {
      assert es == [];
    }
  }

  lemma {:induction false} ReadWrittenItems(es: seq<Entry>, fuel: nat)
    requires fuel >= |es|
    ensures ReadsBack(es, fuel)
    decreases |es|
  {
    hide *;
    if |es| <= 1 {
      ReadFewItems(es, fuel);
    } else {
      ReadWrittenItems(es[1..], fuel - 1);
      ReadManyItems(es, fuel);
    }
  }

  lemma {:induction false} ItemsLongEnough(es: seq<Entry>)
    ensures |Items(es)| >= |es|
  {
    if |es| > 1 { ItemsLongEnough(es[1..]); }
  }

  /** The writer is injective, and this reader undoes it on every list of entries. */
  lemma ReadInvertsMarshal()
    ensures Inverts(Read)
  {
    forall es ensures Read(Marshal(es)) == Some(es) {
      Utf8.RoundTrip(Document(es));
      ExpectLiteral("[", Items(es));
      ItemsLongEnough(es);
      ReadWrittenItems(es, |Items(es)|);
    }
  }
}
