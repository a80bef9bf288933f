/** The log-text neutralizer, the decoder it has no need of, and the proof that one exists: what a module
    wrote can be read back from the line, and the truncation mark is the host's alone. */
module LogText {
  import opened Wrappers
  import opened Utf8
  import opened Numerals

  const MAX_LOG_MESSAGE := 4096
  const MARK_TAIL := "\\(truncated)"
  const LOG_TRUNCATED := ['\U{2026}'] + MARK_TAIL
  const MARK_BYTES := 15

  /** The two Unicode questions the boundary asks of a rune. */
  datatype Policy = Policy(escaped: char -> bool, stripped: char -> bool)

  /** escapeLogRune: the spelling of a rune that may not reach a line as itself, or nothing. */
  function EscapeLogRune(p: Policy, c: char): string {
    if c == '\n' then "\\n"
    else if c == '\r' then "\\r"
    else if c == '\t' then "\\t"
    else if c == '\\' then "\\\\"
    else if !p.escaped(c) then ""
    else if c as int > 0xFFFF then "\\U" + Hex(c as int, 8)
    else "\\u" + Hex(c as int, 4)
  }

  /** How a pass spells one rune: escapeModuleText deletes or escapes, foldToLogLine only folds newlines. */
  datatype Spelling = Escaping(p: Policy) | Folding {
    function Token(c: char): string {
      match this
      case Escaping(p) =>
        if p.stripped(c) then "" else if EscapeLogRune(p, c) == "" then [c] else EscapeLogRune(p, c)
      case Folding => if c == '\n' then "\\n" else [c]
    }
  }

  function Spell(sp: Spelling, s: string): string {
    if s == "" then "" else sp.Token(s[0]) + Spell(sp, s[1..])
  }

  /** The first rune whose token takes the line past the limit, if there is one. */
  function CutAt(sp: Spelling, s: string, limit: int): (k: Option<nat>)
    ensures k.Some? ==> k.value < |s|
  {
    if s == "" then None
    else
      var before := CutAt(sp, s[..|s| - 1], limit);
      if before.Some? then before
      else if sp.Token(s[|s| - 1]) != "" && ByteLen(Spell(sp, s)) > limit then Some(|s| - 1)
      else None
  }

  /** The mark is reserved out of the bound; a bound of nothing at all means there is none. */
  function Line(sp: Spelling, s: string, max: int): string {
    if max <= 0 then Spell(sp, s)
    else match CutAt(sp, s, max - MARK_BYTES)
      case None => Spell(sp, s)
      case Some(k) => Spell(sp, s[..k]) + LOG_TRUNCATED
  }

  predicate IsCut(sp: Spelling, s: string, max: int) { max > 0 && CutAt(sp, s, max - MARK_BYTES).Some? }

  /** The runes that are not deleted. */
  function Kept(p: Policy, s: string): string {
    if s == "" then "" else if p.stripped(s[0]) then Kept(p, s[1..]) else [s[0]] + Kept(p, s[1..])
  }

  // ---- the bound ---------------------------------------------------------------------------------

  lemma MarkLength()
    ensures ByteLen(LOG_TRUNCATED) == MARK_BYTES && |LOG_TRUNCATED| == 13
  {
    assert Ascii(MARK_TAIL) && |MARK_TAIL| == 12;
    AsciiByteLen(MARK_TAIL);
    assert LOG_TRUNCATED[1..] == MARK_TAIL;
    hide ByteLen, MARK_TAIL;
    ByteLenOne('\U{2026}', MARK_TAIL);
  }

  lemma ByteLenOne(c: char, rest: string)
    ensures ByteLen([c] + rest) == CharLen(c) + ByteLen(rest)
  {
    assert ([c] + rest)[1..] == rest;
  }

  lemma {:induction false} SpellAppend(sp: Spelling, s: string, t: string)
    ensures Spell(sp, s + t) == Spell(sp, s) + Spell(sp, t)
  {
    if s == "" {
      assert s + t == t;
    } else {
      assert (s + t)[1..] == s[1..] + t;
      SpellAppend(sp, s[1..], t);
    }
  }

  lemma SpellLast(sp: Spelling, s: string)
    requires s != ""
    ensures Spell(sp, s) == Spell(sp, s[..|s| - 1]) + sp.Token(s[|s| - 1])
    ensures ByteLen(Spell(sp, s)) == ByteLen(Spell(sp, s[..|s| - 1])) + ByteLen(sp.Token(s[|s| - 1]))
  {
    var last := [s[|s| - 1]];
    assert s == s[..|s| - 1] + last;
    SpellAppend(sp, s[..|s| - 1], last);
    assert Spell(sp, last) == sp.Token(s[|s| - 1]) + "";
    ByteLenAppend(Spell(sp, s[..|s| - 1]), sp.Token(s[|s| - 1]));
  }

  /** Nothing is cut exactly when the whole spelling is within the limit, or there is nothing to spell. */
  lemma {:induction false} CutExactly(sp: Spelling, s: string, limit: int)
    ensures CutAt(sp, s, limit).None? <==> Spell(sp, s) == "" || ByteLen(Spell(sp, s)) <= limit
  {
    if s != "" {
      CutExactly(sp, s[..|s| - 1], limit);
      SpellLast(sp, s);
    }
  }

  /** A cut line keeps the longest whole-token prefix within the limit: what is kept fits, or is nothing,
      and every longer prefix of the runes spells to more than the limit. */
  lemma {:induction false} CutIsLongest(sp: Spelling, s: string, limit: int)
    requires CutAt(sp, s, limit).Some?
    ensures var k := CutAt(sp, s, limit).value;
            (Spell(sp, s[..k]) == "" || ByteLen(Spell(sp, s[..k])) <= limit)
            && forall j :: k < j <= |s| ==> ByteLen(Spell(sp, s[..j])) > limit
  {
    hide Spell, ByteLen;
    var init := s[..|s| - 1];
    var k := CutAt(sp, s, limit).value;
    assert s[..|s|] == s && init[..|init|] == init;
    assert forall j :: 0 <= j <= |init| ==> s[..j] == init[..j];
    if CutAt(sp, init, limit).Some? {
      CutIsLongest(sp, init, limit);
      SpellLast(sp, s);
    } else {
      CutExactly(sp, init, limit);
    }
  }

  /** Reading on never moves a cut already made. */
  lemma {:induction false} CutStays(sp: Spelling, s: string, limit: int, j: nat)
    requires j <= |s| && CutAt(sp, s[..j], limit).Some?
    ensures CutAt(sp, s, limit) == CutAt(sp, s[..j], limit)
  {
    if j == |s| {
      assert s[..j] == s;
    } else {
      assert s[..|s| - 1][..j] == s[..j];
      CutStays(sp, s[..|s| - 1], limit, j);
    }
  }

  /** The written line never exceeds its bound, given a bound with room for the mark; a smaller one is
      kept to exactly when nothing is written at all. */
  lemma BoundHolds(sp: Spelling, s: string, max: int)
    requires max > 0
    ensures ByteLen(Line(sp, s, max)) <= max <==> max >= MARK_BYTES || Line(sp, s, max) == ""
  {
    MarkLength();
    CutExactly(sp, s, max - MARK_BYTES);
    ByteLenAtLeastLength(Spell(sp, s));
    if CutAt(sp, s, max - MARK_BYTES).Some? {
      CutIsLongest(sp, s, max - MARK_BYTES);
      ByteLenAppend(Spell(sp, s[..CutAt(sp, s, max - MARK_BYTES).value]), LOG_TRUNCATED);
      assert Line(sp, s, max) != "";
    }
  }

  // ---- the decoder -------------------------------------------------------------------------------

  /** Reads one token. */
  function ReadToken(s: string): (r: Option<(char, string)>)
    ensures r.Some? ==> |r.value.1| < |s|
  {
    if s == "" then None
    else if s[0] != '\\' then Some((s[0], s[1..]))
    else if |s| < 2 then None
    else if s[1] == 'n' then Some(('\n', s[2..]))
    else if s[1] == 'r' then Some(('\r', s[2..]))
    else if s[1] == 't' then Some(('\t', s[2..]))
    else if s[1] == '\\' then Some(('\\', s[2..]))
    else if s[1] == 'u' then ReadHexToken(s, 6)
    else if s[1] == 'U' then ReadHexToken(s, 10)
    else None
  }

  function ReadHexToken(s: string, size: nat): (r: Option<(char, string)>)
    requires size >= 2
    ensures r.Some? ==> |r.value.1| < |s|
  {
    if |s| < size then None
    else match ReadHex(s[2..size])
      case None => None
      case Some(x) => if IsScalar(x) then Some((x as char, s[size..])) else None
  }

  function Decode(s: string): Option<string>
    decreases |s|
  {
    if s == "" then Some("")
    else match ReadToken(s)
      case None => None
      case Some((c, rest)) =>
        match Decode(rest)
        case None => None
        case Some(text) => Some([c] + text)
  }

  lemma HexSpace()
    ensures Pow16(4) == 0x1_0000 && Pow16(8) == 0x1_0000_0000
  {
    assert Pow16(2) == 256;
    assert Pow16(4) == 16 * (16 * Pow16(2));
    assert Pow16(6) == 16 * (16 * Pow16(4));
  }

  lemma ReadWrittenToken(p: Policy, c: char, rest: string)
    requires !p.stripped(c)
    ensures ReadToken(Escaping(p).Token(c) + rest) == Some((c, rest))
  {
    var t := Escaping(p).Token(c);
    var s := t + rest;
    assert s[|t|..] == rest && s[0] == t[0];
    if |t| == 2 {
      assert s[1] == t[1];
    } else if |t| == 6 {
      assert s[1] == 'u' && s[2..6] == Hex(c as int, 4);
      HexSpace();
      ReadWrittenHex(c as int, 4);
    } else if |t| == 10 {
      assert s[1] == 'U' && s[2..10] == Hex(c as int, 8);
      HexSpace();
      ReadWrittenHex(c as int, 8);
    }
  }

  /** Escaping is uniquely decodable: decoding gives back the input with exactly the stripped runes gone. */
  lemma {:induction false} DecodeEscaped(p: Policy, s: string)
    ensures Decode(Spell(Escaping(p), s)) == Some(Kept(p, s))
  {
    if s != "" {
      DecodeEscaped(p, s[1..]);
      var rest := Spell(Escaping(p), s[1..]);
      if p.stripped(s[0]) {
        assert Spell(Escaping(p), s) == rest;
      } else {
        ReadWrittenToken(p, s[0], rest);
        assert |Escaping(p).Token(s[0])| > 0;
      }
    }
  }

  /** So two texts with one spelling differ at most in what is deleted. */
  lemma EscapingInjective(p: Policy, s: string, t: string)
    ensures Spell(Escaping(p), s) == Spell(Escaping(p), t) <==> Kept(p, s) == Kept(p, t)
  {
    DecodeEscaped(p, s);
    DecodeEscaped(p, t);
    SpellKept(p, s);
    SpellKept(p, t);
  }

  lemma {:induction false} SpellKept(p: Policy, s: string)
    ensures Spell(Escaping(p), Kept(p, s)) == Spell(Escaping(p), s)
  {
    if s != "" {
      SpellKept(p, s[1..]);
      if !p.stripped(s[0]) { assert Kept(p, s)[1..] == Kept(p, s[1..]); }
    }
  }

  // ---- the mark ----------------------------------------------------------------------------------

  ghost predicate Occurs(mark: string, s: string) {
    exists i {:trigger s[i..]} :: 0 <= i <= |s| && mark <= s[i..]
  }

  /** In a module's spelling an opening parenthesis after a backslash is always after two. */
  ghost predicate ParenthesesGuarded(s: string) {
    forall i :: 0 <= i && i + 1 < |s| && s[i] == '\\' && s[i + 1] == '(' ==> i > 0 && s[i - 1] == '\\'
  }

  lemma TokenShape(p: Policy, c: char)
    ensures var t := Escaping(p).Token(c);
            t == "" || (|t| == 1 && t[0] != '\\') ||
            (|t| >= 2 && t[0] == '\\' && t[1] != '(' && (forall i :: 2 <= i < |t| ==> t[i] != '\\')
             && (t[1] == '\\' ==> |t| == 2))
  {
    var t := Escaping(p).Token(c);
    if |t| == 6 {
      HexNoBackslash(c as int, 4);
      assert forall i :: 2 <= i < 6 ==> t[i] == Hex(c as int, 4)[i - 2];
    } else if |t| == 10 {
      HexNoBackslash(c as int, 8);
      assert forall i :: 2 <= i < 10 ==> t[i] == Hex(c as int, 8)[i - 2];
    }
  }

  lemma {:induction false} HexNoBackslash(n: nat, digits: nat)
    ensures forall i :: 0 <= i < digits ==> Hex(n, digits)[i] != '\\'
  {
    if digits > 0 { HexNoBackslash(n / 16, digits - 1); }
  }

  lemma {:induction false} SpellGuarded(p: Policy, s: string)
    ensures ParenthesesGuarded(Spell(Escaping(p), s))
  {
    if s != "" {
      SpellGuarded(p, s[1..]);
      TokenShape(p, s[0]);
      GuardedAppend(Escaping(p).Token(s[0]), Spell(Escaping(p), s[1..]));
    }
  }

  lemma GuardedAppend(t: string, rest: string)
    requires ParenthesesGuarded(rest)
    requires t == "" || (|t| == 1 && t[0] != '\\') ||
             (|t| >= 2 && t[0] == '\\' && t[1] != '(' && (forall i :: 2 <= i < |t| ==> t[i] != '\\')
              && (t[1] == '\\' ==> |t| == 2))
    ensures ParenthesesGuarded(t + rest)
  {
    var s := t + rest;
    forall i | 0 <= i && i + 1 < |s| && s[i] == '\\' && s[i + 1] == '(' ensures i > 0 && s[i - 1] == '\\' {
      if i >= |t| {
        assert rest[i - |t|] == '\\' && rest[i - |t| + 1] == '(';
      }
    }
  }

  lemma MarkStarts()
    ensures |LOG_TRUNCATED| == 13 && LOG_TRUNCATED[1] == '\\' && LOG_TRUNCATED[2] == '(' && LOG_TRUNCATED[0] != '\\'
  {
  }

  lemma MarkIsUnguarded(s: string)
    requires Occurs(LOG_TRUNCATED, s)
    ensures !ParenthesesGuarded(s)
  {
    MarkStarts();
    hide LOG_TRUNCATED;
    var i :| 0 <= i <= |s| && LOG_TRUNCATED <= s[i..];
    assert forall k :: 0 <= k < 3 ==> LOG_TRUNCATED[k] == s[i..][k] == s[i + k];
    assert s[i + 1] == '\\' && s[i + 1 + 1] == '(' && s[i + 1 - 1] != '\\';
  }

  /** No spelling of a module's text contains the mark, whatever the module wrote: the mark is a claim
      only the host can make. */
  lemma MarkCannotBeForged(p: Policy, s: string)
    ensures !Occurs(LOG_TRUNCATED, Spell(Escaping(p), s))
  {
    SpellGuarded(p, s);
    if Occurs(LOG_TRUNCATED, Spell(Escaping(p), s)) { MarkIsUnguarded(Spell(Escaping(p), s)); }
  }

  // ---- reading a bounded line --------------------------------------------------------------------

  datatype Reading = Whole(text: string) | Truncated(text: string)

  predicate EndsInMark(s: string) { |s| >= 13 && s[|s| - 13..] == LOG_TRUNCATED }

  /** The reader of a line: a mark at the end says the host stopped copying. */
  function ReadLine(s: string): Option<Reading> {
    if EndsInMark(s) then
      (match Decode(s[..|s| - 13]) case None => None case Some(text) => Some(Truncated(text)))
    else match Decode(s) case None => None case Some(text) => Some(Whole(text))
  }

  lemma ReadMarked(body: string)
    ensures ReadLine(body + LOG_TRUNCATED)
            == match Decode(body) case None => None case Some(text) => Some(Truncated(text))
  {
    hide Decode;
    MarkLength();
    hide LOG_TRUNCATED;
    var line := body + LOG_TRUNCATED;
    assert line[|line| - 13..] == LOG_TRUNCATED && line[..|line| - 13] == body;
  }

  lemma ReadUnmarked(line: string)
    requires !Occurs(LOG_TRUNCATED, line)
    ensures ReadLine(line) == match Decode(line) case None => None case Some(text) => Some(Whole(text))
  {
    hide Decode, LOG_TRUNCATED;
    EndsMeansOccurs(line);
  }

  lemma EndsMeansOccurs(line: string)
    ensures EndsInMark(line) ==> Occurs(LOG_TRUNCATED, line)
  {
    hide LOG_TRUNCATED;
    if EndsInMark(line) { assert LOG_TRUNCATED <= line[|line| - 13..]; }
  }

  /** Every line the boundary can write reads back: whole, as the kept runes of the text, or truncated, as
      the kept runes of the longest prefix that fitted; and which of the two is never in doubt. */
  lemma LineReadsBack(p: Policy, s: string, max: int)
    ensures ReadLine(Line(Escaping(p), s, max))
            == if IsCut(Escaping(p), s, max) then Some(Truncated(Kept(p, s[..CutAt(Escaping(p), s, max - MARK_BYTES).value])))
               else Some(Whole(Kept(p, s)))
  {
    hide ReadLine, Decode, Kept, Spell, Occurs;
    if IsCut(Escaping(p), s, max) {
      var prefix := s[..CutAt(Escaping(p), s, max - MARK_BYTES).value];
      DecodeEscaped(p, prefix);
      ReadMarked(Spell(Escaping(p), prefix));
    } else {
      DecodeEscaped(p, s);
      MarkCannotBeForged(p, s);
      ReadUnmarked(Spell(Escaping(p), s));
    }
  }

  // ---- what reaches a line -----------------------------------------------------------------------

  /** The runes escapes are written in may reach a line as themselves. */
  ghost predicate EscapesArePlain(p: Policy) { forall c :: c in "\\nrtuU0123456789abcdef" ==> !p.escaped(c) }

  predicate Fit(p: Policy, c: char) { !p.escaped(c) && c != '\n' && c != '\r' && c != '\t' }

  lemma {:induction false} HexIsFit(p: Policy, n: nat, digits: nat)
    requires EscapesArePlain(p)
    ensures forall i :: 0 <= i < digits ==> Fit(p, Hex(n, digits)[i])
  {
    if digits > 0 {
      HexIsFit(p, n / 16, digits - 1);
      assert HexChar(n % 16) in "0123456789abcdef";
    }
  }

  lemma TokenIsFit(p: Policy, c: char)
    requires EscapesArePlain(p)
    ensures forall d :: d in Escaping(p).Token(c) ==> Fit(p, d)
  {
    HexIsFit(p, c as int, 4);
    HexIsFit(p, c as int, 8);
  }

  /** No rune the policy escapes, and no newline, carriage return or tab, is ever in a spelling as itself. */
  lemma {:induction false} SpellingIsFit(p: Policy, s: string)
    requires EscapesArePlain(p)
    ensures forall c :: c in Spell(Escaping(p), s) ==> Fit(p, c)
  {
    if s != "" {
      SpellingIsFit(p, s[1..]);
      TokenIsFit(p, s[0]);
    }
  }

  /** All but the last few of a line's runes. */
  ghost predicate FitBefore(p: Policy, line: string, last: nat) { forall i :: 0 <= i < |line| - last ==> Fit(p, line[i]) }

  /** Nor in a line, but for the mark's thirteen runes. */
  lemma LineIsFit(p: Policy, s: string, max: int)
    requires EscapesArePlain(p)
    ensures FitBefore(p, Line(Escaping(p), s, max), if IsCut(Escaping(p), s, max) then 13 else 0)
  {
    MarkStarts();
    hide LOG_TRUNCATED, Spell, Fit;
    SpellingIsFit(p, s);
    if IsCut(Escaping(p), s, max) {
      SpellingIsFit(p, s[..CutAt(Escaping(p), s, max - MARK_BYTES).value]);
    }
  }

  /** An escaped rune other than the four with spellings of their own becomes its number: four digits in the basic
      plane and eight past it. */
  lemma EscapedIsItsNumber(p: Policy, c: char)
    requires !p.stripped(c) && p.escaped(c) && c !in "\n\r\t\\"
    ensures var t := Escaping(p).Token(c);
            && |t| == (if c as int <= 0xFFFF then 6 else 10)
            && t[..2] == (if c as int <= 0xFFFF then "\\u" else "\\U") && ReadHex(t[2..]) == Some(c as nat)
  {
    var digits := if c as int <= 0xFFFF then 4 else 8;
    assert Escaping(p).Token(c)[2..] == Hex(c as int, digits);
    HexSpace();
    ReadWrittenHex(c as int, digits);
  }

  /** A rune no pass has anything to say about. */
  predicate Plain(p: Policy, c: char) { Fit(p, c) && !p.stripped(c) && c != '\\' }

  lemma {:induction false} PlainSpellsItself(p: Policy, s: string)
    requires forall c :: c in s ==> Plain(p, c)
    ensures Spell(Escaping(p), s) == s
  {
    if s != "" {
      assert s[0] in s;
      PlainSpellsItself(p, s[1..]);
    }
  }

  ghost predicate LongestWithin(s: string, k: nat, limit: int) {
    k < |s| && (k == 0 || ByteLen(s[..k]) <= limit) && forall j :: k < j <= |s| ==> ByteLen(s[..j]) > limit
  }

  lemma PlainIsCut(p: Policy, s: string, limit: int)
    requires (forall c :: c in s ==> Plain(p, c)) && CutAt(Escaping(p), s, limit).Some?
    ensures var k := CutAt(Escaping(p), s, limit).value; LongestWithin(s, k, limit) && Spell(Escaping(p), s[..k]) == s[..k]
  {
    var sp := Escaping(p);
    CutIsLongest(sp, s, limit);
    hide Spell, ByteLen, Plain, CutAt;
    forall j | 0 <= j <= |s| ensures Spell(sp, s[..j]) == s[..j] { PlainSpellsItself(p, s[..j]); }
  }

  /** Text with nothing to escape or strip is written as it is: whole where the limit allows, and otherwise the
      longest of its prefixes within the limit and the mark. */
  lemma PlainIsWritten(p: Policy, s: string, max: int)
    requires forall c :: c in s ==> Plain(p, c)
    ensures if max > 0 && s != "" && ByteLen(s) > max - 15 then
              exists k: nat :: LongestWithin(s, k, max - 15) && Line(Escaping(p), s, max) == s[..k] + LOG_TRUNCATED
            else Line(Escaping(p), s, max) == s
  {
    PlainSpellsItself(p, s);
    CutExactly(Escaping(p), s, max - MARK_BYTES);
    if IsCut(Escaping(p), s, max) { PlainIsCut(p, s, max - MARK_BYTES); }
    hide Spell, ByteLen, LOG_TRUNCATED, Plain, CutAt, LongestWithin;
  }

  // ---- the loops ---------------------------------------------------------------------------------

  method HexRune(r: nat, digits: nat) returns (out: array<char>)
    ensures fresh(out) && out[..] == Hex(r, digits)
  {
    out := new char[digits];
    var rest := r;
    var i := digits;
    while i > 0
      invariant 0 <= i <= digits
      invariant Hex(rest, i) + out[i..] == Hex(r, digits)
    {
      i := i - 1;
      out[i] := HexChar(rest % 16);
      assert out[i..] == [HexChar(rest % 16)] + out[i + 1..];
      rest := rest / 16;
    }
  }

  /** The escaping loop. `max` at or below zero is the unbounded case. */
  method EscapeModuleText(p: Policy, s: string, max: int) returns (out: string)
    ensures out == Line(Escaping(p), s, max)
  {
    hide Spell, ByteLen, LOG_TRUNCATED;
    out := "";
    var limit := max - MARK_BYTES;
    ghost var sp := Escaping(p);
    EmptySpelling(sp);
    for i := 0 to |s|
      invariant out == Spell(sp, s[..i])
      invariant max > 0 ==> CutAt(sp, s[..i], limit).None?
    {
      StepOfSpelling(sp, s, i);
      if p.stripped(s[i]) {
        continue;
      }
      var esc := EscapeLogRune(p, s[i]);
      var n := if esc == "" then CharLen(s[i]) else ByteLen(esc);
      RuneLength(s[i]);
      if max > 0 && ByteLen(out) + n > limit {
        CutStays(sp, s, limit, i + 1);
        out := out + LOG_TRUNCATED;
        return;
      }
      if esc == "" {
        out := out + [s[i]];
        continue;
      }
      out := out + esc;
    }
    assert s[..|s|] == s;
  }

  lemma EmptySpelling(sp: Spelling)
    ensures Spell(sp, "") == ""
  {
  }

  lemma RuneLength(c: char)
    ensures ByteLen([c]) == CharLen(c)
  {
    assert [c][1..] == "";
  }

  lemma StepOfSpelling(sp: Spelling, s: string, i: nat)
    requires i < |s|
    ensures Spell(sp, s[..i + 1]) == Spell(sp, s[..i]) + sp.Token(s[i])
    ensures ByteLen(Spell(sp, s[..i + 1])) == ByteLen(Spell(sp, s[..i])) + ByteLen(sp.Token(s[i]))
    ensures s[..i + 1][..i] == s[..i] && s[..i + 1][i] == s[i]
  {
    assert s[..i + 1][..i] == s[..i];
    SpellLast(sp, s[..i + 1]);
  }

  // ---- folding into one record --------------------------------------------------------------------

  /** Text that is already one line and short enough is left alone, mark and all. */
  function FoldedLine(s: string): string {
    if '\n' !in s && ByteLen(s) <= MAX_LOG_MESSAGE then s else Line(Folding, s, MAX_LOG_MESSAGE)
  }

  predicate FoldCuts(s: string) {
    ('\n' in s || ByteLen(s) > MAX_LOG_MESSAGE) && IsCut(Folding, s, MAX_LOG_MESSAGE)
  }

  method FoldToLogLine(s: string) returns (out: string)
    ensures out == FoldedLine(s)
  {
    hide Spell, ByteLen, LOG_TRUNCATED;
    if '\n' !in s && ByteLen(s) <= MAX_LOG_MESSAGE {
      return s;
    }
    out := "";
    var limit := MAX_LOG_MESSAGE - MARK_BYTES;
    EmptySpelling(Folding);
    for i := 0 to |s|
      invariant out == Spell(Folding, s[..i])
      invariant CutAt(Folding, s[..i], limit).None?
    {
      StepOfSpelling(Folding, s, i);
      var esc := if s[i] == '\n' then "\\n" else "";
      var n := if s[i] == '\n' then ByteLen(esc) else CharLen(s[i]);
      RuneLength(s[i]);
      if ByteLen(out) + n > limit {
        CutStays(Folding, s, limit, i + 1);
        out := out + LOG_TRUNCATED;
        return;
      }
      if esc == "" {
        out := out + [s[i]];
        continue;
      }
      out := out + esc;
    }
    assert s[..|s|] == s;
  }

  lemma {:induction false} FoldedHasNoNewline(s: string)
    ensures '\n' !in Spell(Folding, s)
  {
    if s != "" { FoldedHasNoNewline(s[1..]); }
  }

  lemma MarkHasNoNewline()
    ensures '\n' !in LOG_TRUNCATED
  {
  }

  /** Whatever goes in, a folded line is one record: no newline, and never longer than a log line may be. */
  lemma FoldIsOneRecord(s: string)
    ensures '\n' !in FoldedLine(s) && ByteLen(FoldedLine(s)) <= MAX_LOG_MESSAGE
  {
    hide Spell, ByteLen, LOG_TRUNCATED;
    BoundHolds(Folding, s, MAX_LOG_MESSAGE);
    MarkHasNoNewline();
    FoldedHasNoNewline(s);
    var cut := CutAt(Folding, s, MAX_LOG_MESSAGE - MARK_BYTES);
    if cut.Some? { FoldedHasNoNewline(s[..cut.value]); }
  }

  // ---- the shape the host put into an error ---------------------------------------------------------

  /** An error, as the neutralizer sees it: its text, and the branches it wraps when it wraps several. */
  datatype ErrText = Single(text: string) | Several(text: string, branches: seq<ErrText>)

  /** strings.Join with a newline. */
  function JoinLines(lines: seq<string>): string {
    if lines == [] then ""
    else if |lines| == 1 then lines[0]
    else lines[0] + "\n" + JoinLines(lines[1..])
  }

  function SplitLines(s: string): (lines: seq<string>)
    ensures |lines| >= 1
  {
    if s == "" then [""]
    else
      var rest := SplitLines(s[1..]);
      if s[0] == '\n' then [""] + rest else [[s[0]] + rest[0]] + rest[1..]
  }

  function Texts(branches: seq<ErrText>): (r: seq<string>)
    ensures |r| == |branches|
  {
    if branches == [] then [] else [branches[0].text] + Texts(branches[1..])
  }

  predicate IsJoin(e: ErrText) { e.Several? && e.text == JoinLines(Texts(e.branches)) }

  function NeutralizedErrText(p: Policy, e: ErrText): string
    decreases e, 0
  {
    if !IsJoin(e) then Spell(Escaping(p), e.text) else JoinLines(NeutralizedAll(p, e.branches))
  }

  function NeutralizedAll(p: Policy, branches: seq<ErrText>): (r: seq<string>)
    ensures |r| == |branches|
    decreases branches
  {
    if branches == [] then [] else [NeutralizedErrText(p, branches[0])] + NeutralizedAll(p, branches[1..])
  }

  /** The texts the host joined: one for each branch that is not itself a join, and an empty one for a join
      of nothing. */
  function Leaves(e: ErrText): (r: seq<string>)
    ensures |r| >= 1
    decreases e, 0
  {
    if !IsJoin(e) || e.branches == [] then [e.text] else AllLeaves(e.branches)
  }

  function AllLeaves(branches: seq<ErrText>): (r: seq<string>)
    ensures |r| >= |branches|
    decreases branches
  {
    if branches == [] then [] else Leaves(branches[0]) + AllLeaves(branches[1..])
  }

  function Escaped(p: Policy, texts: seq<string>): (r: seq<string>)
    ensures |r| == |texts|
  {
    if texts == [] then [] else [Spell(Escaping(p), texts[0])] + Escaped(p, texts[1..])
  }

  lemma {:induction false} EscapedAppend(p: Policy, a: seq<string>, b: seq<string>)
    ensures Escaped(p, a + b) == Escaped(p, a) + Escaped(p, b)
  {
    if a == [] {
      assert a + b == b;
    } else {
      assert (a + b)[1..] == a[1..] + b;
      EscapedAppend(p, a[1..], b);
    }
  }

  lemma {:induction false} JoinAppend(a: seq<string>, b: seq<string>)
    requires a != [] && b != []
    ensures JoinLines(a + b) == JoinLines(a) + "\n" + JoinLines(b)
  {
    if |a| == 1 {
      assert (a + b)[1..] == b;
    } else {
      assert (a + b)[1..] == a[1..] + b;
      JoinAppend(a[1..], b);
    }
  }

  /** Descending into joins finds the texts whose joining the error's own text is. */
  lemma {:induction false} LeavesAreTheText(e: ErrText)
    ensures JoinLines(Leaves(e)) == e.text
    decreases e, 0
  {
    if IsJoin(e) && e.branches != [] { AllLeavesAreTheText(e.branches); }
  }

  lemma {:induction false} AllLeavesAreTheText(branches: seq<ErrText>)
    requires branches != []
    ensures JoinLines(AllLeaves(branches)) == JoinLines(Texts(branches))
    decreases branches
  {
    LeavesAreTheText(branches[0]);
    if |branches| == 1 {
      assert AllLeaves(branches) == Leaves(branches[0]);
    } else {
      AllLeavesAreTheText(branches[1..]);
      JoinAppend(Leaves(branches[0]), AllLeaves(branches[1..]));
    }
  }

  /** Neutralizing an error joins the escapes of those same texts. */
  lemma {:induction false} NeutralizedIsJoined(p: Policy, e: ErrText)
    ensures NeutralizedErrText(p, e) == JoinLines(Escaped(p, Leaves(e)))
    decreases e, 0
  {
    if IsJoin(e) && e.branches != [] {
      AllNeutralized(p, e.branches);
    } else {
      assert Escaped(p, [e.text]) == [Spell(Escaping(p), e.text)];
    }
  }

  lemma {:induction false} AllNeutralized(p: Policy, branches: seq<ErrText>)
    requires branches != []
    ensures JoinLines(NeutralizedAll(p, branches)) == JoinLines(Escaped(p, AllLeaves(branches)))
    decreases branches
  {
    NeutralizedIsJoined(p, branches[0]);
    EscapedAppend(p, Leaves(branches[0]), AllLeaves(branches[1..]));
    if |branches| == 1 {
      assert AllLeaves(branches) == Leaves(branches[0]);
    } else {
      AllNeutralized(p, branches[1..]);
      JoinAppend(Escaped(p, Leaves(branches[0])), Escaped(p, AllLeaves(branches[1..])));
    }
  }

  lemma {:induction false} SplitJoined(lines: seq<string>)
    requires lines != [] && forall i :: 0 <= i < |lines| ==> '\n' !in lines[i]
    ensures SplitLines(JoinLines(lines)) == lines
  {
    if |lines| == 1 {
      SplitWhole(lines[0]);
    } else {
      SplitJoined(lines[1..]);
      SplitBefore(lines[0], JoinLines(lines[1..]));
    }
  }

  lemma {:induction false} SplitWhole(line: string)
    requires '\n' !in line
    ensures SplitLines(line) == [line]
  {
    if line != "" {
      SplitWhole(line[1..]);
      assert [line[0]] + line[1..] == line;
    }
  }

  lemma {:induction false} SplitBefore(line: string, rest: string)
    requires '\n' !in line
    ensures SplitLines(line + "\n" + rest) == [line] + SplitLines(rest)
  {
    var s := line + "\n" + rest;
    if line == "" {
      assert s[1..] == rest;
    } else {
      assert s[1..] == line[1..] + "\n" + rest;
      SplitBefore(line[1..], rest);
      assert [line[0]] + line[1..] == line;
    }
  }

  lemma {:induction false} EscapedHasNoNewline(p: Policy, s: string)
    ensures '\n' !in Spell(Escaping(p), s)
  {
    if s != "" {
      EscapedHasNoNewline(p, s[1..]);
      HexIsPlain(s[0] as int, 4);
      HexIsPlain(s[0] as int, 8);
    }
  }

  lemma {:induction false} HexIsPlain(n: nat, digits: nat)
    ensures '\n' !in Hex(n, digits)
  {
    if digits > 0 { HexIsPlain(n / 16, digits - 1); }
  }

  lemma {:induction false} AllEscapedHaveNoNewline(p: Policy, texts: seq<string>)
    ensures forall i :: 0 <= i < |texts| ==> '\n' !in Escaped(p, texts)[i]
  {
    if texts != [] {
      EscapedHasNoNewline(p, texts[0]);
      AllEscapedHaveNoNewline(p, texts[1..]);
    }
  }

  /** Only the host's own aggregation starts a line: the lines of a neutralized error are exactly the
      escapes of the texts it joined, however many newlines a module put into any of them. */
  lemma OneLinePerLeaf(p: Policy, e: ErrText)
    ensures SplitLines(NeutralizedErrText(p, e)) == Escaped(p, Leaves(e))
    ensures JoinLines(Leaves(e)) == e.text
  {
    hide Escaped, NeutralizedErrText, SplitLines, JoinLines;
    NeutralizedIsJoined(p, e);
    AllEscapedHaveNoNewline(p, Leaves(e));
    SplitJoined(Escaped(p, Leaves(e)));
    LeavesAreTheText(e);
  }

  function JoinedLines(p: Policy, branches: seq<ErrText>): seq<string> {
    if branches == [] then [] else SplitLines(NeutralizedErrText(p, branches[0])) + JoinedLines(p, branches[1..])
  }

  lemma {:induction false} AllBranchLines(p: Policy, branches: seq<ErrText>)
    ensures Escaped(p, AllLeaves(branches)) == JoinedLines(p, branches)
  {
    hide NeutralizedErrText, SplitLines, Leaves;
    if branches != [] {
      AllBranchLines(p, branches[1..]);
      OneLinePerLeaf(p, branches[0]);
      EscapedAppend(p, Leaves(branches[0]), AllLeaves(branches[1..]));
    }
  }

  /** Which lines those are: an error that is the join of some others has all of theirs, in order, and any other,
      newlines and all, has one. */
  lemma LinesExactly(p: Policy, e: ErrText)
    ensures SplitLines(NeutralizedErrText(p, e)) ==
            if e.Several? && e.branches != [] && e.text == JoinLines(Texts(e.branches)) then JoinedLines(p, e.branches)
            else [Spell(Escaping(p), e.text)]
  {
    hide NeutralizedErrText, SplitLines, JoinedLines;
    OneLinePerLeaf(p, e);
    if IsJoin(e) && e.branches != [] {
      AllBranchLines(p, e.branches);
    } else {
      assert Escaped(p, [e.text])[1..] == [];
    }
  }

  /** Text that is one line already and within the bound is left as it is, a mark at its end included. */
  lemma FoldLeavesAlone(s: string)
    requires '\n' !in s && ByteLen(s) <= 4096
    ensures FoldedLine(s) == s
  {
  }

  lemma {:induction false} FoldsToItself(s: string)
    requires '\n' !in s
    ensures Spell(Folding, s) == s
  {
    if s != "" { FoldsToItself(s[1..]); }
  }

  lemma {:induction false} FoldJoined(p: Policy, texts: seq<string>)
    requires texts != [] && !p.stripped('\n')
    ensures Spell(Folding, JoinLines(Escaped(p, texts))) == Spell(Escaping(p), JoinLines(texts))
  {
    var first := Spell(Escaping(p), texts[0]);
    EscapedHasNoNewline(p, texts[0]);
    FoldsToItself(first);
    if |texts| > 1 {
      var rest := JoinLines(Escaped(p, texts[1..]));
      FoldJoined(p, texts[1..]);
      assert Escaped(p, texts)[1..] == Escaped(p, texts[1..]);
      SpellAppend(Folding, first + "\n", rest);
      SpellAppend(Folding, first, "\n");
      SpellAppend(Escaping(p), texts[0] + "\n", JoinLines(texts[1..]));
      SpellAppend(Escaping(p), texts[0], "\n");
      OneNewline(p);
    }
  }

  lemma OneNewline(p: Policy)
    requires !p.stripped('\n')
    ensures Spell(Folding, "\n") == Spell(Escaping(p), "\n")
  {
    assert Spell(Folding, "\n") == "\\n" + "";
    assert Spell(Escaping(p), "\n") == "\\n" + "";
  }

  /** The two routes to the log meet: an error neutralized branch by branch and then folded spells what
      escaping its whole text at once would have, unless the bound cuts it. */
  lemma FoldedErrorIsEscapedText(p: Policy, e: ErrText)
    requires !p.stripped('\n')
    ensures !FoldCuts(NeutralizedErrText(p, e))
            ==> FoldedLine(NeutralizedErrText(p, e)) == Spell(Escaping(p), e.text)
    ensures Spell(Folding, NeutralizedErrText(p, e)) == Spell(Escaping(p), e.text)
  {
    hide Spell, ByteLen, NeutralizedErrText, JoinLines, Escaped, Leaves;
    var s := NeutralizedErrText(p, e);
    NeutralizedIsJoined(p, e);
    LeavesAreTheText(e);
    FoldJoined(p, Leaves(e));
    if '\n' !in s { FoldsToItself(s); }
  }

  /** So an uncut record of an error still decodes to its text, and still cannot carry the mark. */
  lemma FoldedErrorReadsBack(p: Policy, e: ErrText)
    requires !p.stripped('\n') && !FoldCuts(NeutralizedErrText(p, e))
    ensures ReadLine(FoldedLine(NeutralizedErrText(p, e))) == Some(Whole(Kept(p, e.text)))
  {
    hide Spell, ByteLen, NeutralizedErrText, FoldedLine, Decode, Kept, Occurs, ReadLine;
    FoldedErrorIsEscapedText(p, e);
    MarkCannotBeForged(p, e.text);
    ReadUnmarked(Spell(Escaping(p), e.text));
    DecodeEscaped(p, e.text);
  }
}
