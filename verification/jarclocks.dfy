/** The accepting check and the later write read the clock separately: when the two readings agree about what
    fits, and a response about which they do not. */
module JarClocks {
  import opened Wrappers
  import opened Utf8
  import opened Numerals
  import opened JarJson
  import opened Jar
  import Base64Url

  /** The same entries, none with an expiry written in more digits. */
  ghost predicate NoWider(x: seq<Entry>, y: seq<Entry>) {
    |x| == |y| && forall i :: 0 <= i < |x| ==>
      x[i].name == y[i].name && x[i].value == y[i].value && |ExpiryField(y[i].exp)| <= |ExpiryField(x[i].exp)|
  }

  lemma ExpiryFieldAscii(exp: Int64)
    ensures Ascii(ExpiryField(exp))
  {
    var n: int := exp;
    DecimalIsDigits(if n < 0 then -n else n);
  }

  lemma EntryLength(e: Entry)
    ensures ByteLen(EntryText(e))
            == ByteLen(Field(NAME_KEY, e.name)) + ByteLen(Field(VALUE_KEY, e.value)) + |ExpiryField(e.exp)| + 1
  {
    var head := Field(NAME_KEY, e.name) + Field(VALUE_KEY, e.value);
    ByteLenAppend(Field(NAME_KEY, e.name), Field(VALUE_KEY, e.value));
    ByteLenAppend(head, ExpiryField(e.exp));
    ByteLenAppend(head + ExpiryField(e.exp), "}");
    ExpiryFieldAscii(e.exp);
    AsciiByteLen(ExpiryField(e.exp));
    AsciiByteLen("}");
  }

  lemma {:induction false} NoWiderLength(x: seq<Entry>, y: seq<Entry>)
    requires NoWider(x, y)
    ensures ByteLen(Items(y)) <= ByteLen(Items(x))
  {
    hide EntryText, ExpiryField, ByteLen, Field;
    if |x| > 0 {
      EntryLength(x[0]);
      EntryLength(y[0]);
      if |x| == 1 {
        ByteLenAppend(EntryText(x[0]), "]");
        ByteLenAppend(EntryText(y[0]), "]");
      } else {
        NoWiderLength(x[1..], y[1..]);
        ByteLenAppend(EntryText(x[0]), ",");
        ByteLenAppend(EntryText(y[0]), ",");
        ByteLenAppend(EntryText(x[0]) + ",", Items(x[1..]));
        ByteLenAppend(EntryText(y[0]) + ",", Items(y[1..]));
      }
    }
  }

  /** What packs is a question of the document's length alone. */
  lemma PacksByLength(es: seq<Entry>)
    requires es != []
    ensures Pack(es).Some? <==> 1 + ByteLen(Items(es)) <= 2304
  {
    hide ByteLen, Items;
    EncodeLength(Document(es));
    ByteLenAppend("[", Items(es));
    OneBracket();
    Base64Url.EncodedLength(Marshal(es));
  }

  lemma OneBracket()
    ensures ByteLen("[") == 1
  {
    AsciiByteLen("[");
  }

  lemma NoWiderPacks(x: seq<Entry>, y: seq<Entry>)
    requires NoWider(x, y) && Pack(x).Some?
    ensures Pack(y).Some?
  {
    hide Pack, Items, ByteLen;
    if x == [] {
      EmptyPacks();
    } else {
      NoWiderLength(x, y);
      PacksByLength(x);
      PacksByLength(y);
    }
  }

  lemma EmptyPacks()
    ensures Pack([]).Some?
  {
  }

  lemma {:induction false} FilterNoWider(x: seq<Entry>, y: seq<Entry>, name: string)
    requires NoWider(x, y)
    ensures NoWider(Filter(x, NotNamed(name)), Filter(y, NotNamed(name)))
  {
    if x != [] {
      FilterNoWider(x[..|x| - 1], y[..|y| - 1], name);
      hide ExpiryField;
      assert x[|x| - 1].name == y[|x| - 1].name;
    }
  }

  /** No cookie's expiry is written in more digits at the second reading. */
  ghost predicate NoLonger(cookies: seq<Cookie>, t0: Clock, t1: Clock) {
    forall i :: 0 <= i < |cookies| ==>
      |ExpiryField(Expiry(t1, cookies[i].maxAge))| <= |ExpiryField(Expiry(t0, cookies[i].maxAge))|
  }

  lemma AppendNoWider(x: seq<Entry>, y: seq<Entry>, a: Entry, b: Entry)
    requires NoWider(x, y) && a.name == b.name && a.value == b.value && |ExpiryField(b.exp)| <= |ExpiryField(a.exp)|
    ensures NoWider(x + [a], y + [b])
  {
    hide ExpiryField;
  }

  lemma {:induction false} FoldNoWider(cookies: seq<Cookie>, t0: Clock, t1: Clock)
    requires NoLonger(cookies, t0, t1)
    ensures NoWider(Fold(Jars([], []), cookies, t0).session, Fold(Jars([], []), cookies, t1).session)
    ensures NoWider(Fold(Jars([], []), cookies, t0).kept, Fold(Jars([], []), cookies, t1).kept)
  {
    hide ExpiryField, NoWider, Filter, Expiry;
    if cookies == [] {
      assert NoWider([], []) by { NothingWider(); }
    } else {
      var init, c := cookies[..|cookies| - 1], cookies[|cookies| - 1];
      assert NoLonger(init, t0, t1);
      FoldNoWider(init, t0, t1);
      var x, y := Fold(Jars([], []), init, t0), Fold(Jars([], []), init, t1);
      FilterNoWider(x.session, y.session, c.name);
      FilterNoWider(x.kept, y.kept, c.name);
      assert |ExpiryField(Expiry(t1, c.maxAge))| <= |ExpiryField(Expiry(t0, c.maxAge))|;
      var keep := NotNamed(c.name);
      AppendNoWider(Filter(x.session, keep), Filter(y.session, keep), Entry(c.name, c.value, 0), Entry(c.name, c.value, 0));
      AppendNoWider(Filter(x.kept, keep), Filter(y.kept, keep),
                    Entry(c.name, c.value, Expiry(t0, c.maxAge)), Entry(c.name, c.value, Expiry(t1, c.maxAge)));
    }
  }

  lemma NothingWider()
    ensures NoWider([], [])
  {
  }

  /** What fits at the accepting reading fits at the writing one, unless some expiry has grown a digit. */
  lemma StillFits(cookies: seq<Cookie>, t0: Clock, t1: Clock)
    requires JarFits(cookies, t0) && NoLonger(cookies, t0, t1)
    ensures JarFits(cookies, t1)
  {
    hide Pack, Fold, NoWider;
    FoldNoWider(cookies, t0, t1);
    if cookies != [] {
      var x, y := Fold(Jars([], []), cookies, t0), Fold(Jars([], []), cookies, t1);
      NoWiderPacks(x.session, y.session);
      NoWiderPacks(x.kept, y.kept);
    }
  }

  /** So two readings at which every expiry has as many digits agree. */
  lemma FitsAtEitherReading(cookies: seq<Cookie>, t0: Clock, t1: Clock)
    requires NoLonger(cookies, t0, t1) && NoLonger(cookies, t1, t0)
    ensures JarFits(cookies, t0) <==> JarFits(cookies, t1)
  {
    hide JarFits, NoLonger;
    if JarFits(cookies, t0) { StillFits(cookies, t0, t1); }
    if JarFits(cookies, t1) { StillFits(cookies, t1, t0); }
  }

  /** Session entries carry no expiry, so the two readings fold them alike. */
  lemma {:induction false} SessionFoldsAlike(cookies: seq<Cookie>, t0: Clock, t1: Clock)
    ensures Fold(Jars([], []), cookies, t0).session == Fold(Jars([], []), cookies, t1).session
  {
    if cookies != [] {
      hide Filter, Expiry;
      SessionFoldsAlike(cookies[..|cookies| - 1], t0, t1);
    }
  }

  lemma EmptyDocument()
    ensures ByteLen(Document([])) == 2
  {
    AsciiByteLen("[]");
    assert Document([]) == "[]";
  }

  lemma PacksByDocument(es: seq<Entry>)
    ensures Pack(es).Some? <==> ByteLen(Document(es)) <= 2304
  {
    hide ByteLen, Items, Pack;
    if es == [] {
      EmptyPacks();
      EmptyDocument();
    } else {
      PacksByLength(es);
      ByteLenAppend("[", Items(es));
      OneBracket();
    }
  }

  /** Exactly when an accepted response still fits at the later reading: when the kept entries it folds to, written
      with that reading's expiries, make a document of at most 2304 bytes. */
  lemma FitsExactly(cookies: seq<Cookie>, t0: Clock, t1: Clock)
    requires JarFits(cookies, t0)
    ensures JarFits(cookies, t1) <==> ByteLen(Document(Fold(Jars([], []), cookies, t1).kept)) <= 2304
  {
    hide Pack, Document, ByteLen;
    if cookies == [] {
      EmptyDocument();
    } else {
      hide Fold;
      SessionFoldsAlike(cookies, t0, t1);
      PacksByDocument(Fold(Jars([], []), cookies, t1).kept);
    }
  }

  // ---- a response the two readings disagree about ----------------------------------------------------

  function Xs(n: nat): (s: string)
    ensures |s| == n
  {
    if n == 0 then "" else "x" + Xs(n - 1)
  }

  lemma {:induction false} XsEscape(n: nat)
    ensures Escape(Xs(n)) == Xs(n) && Ascii(Xs(n))
  {
    if n > 0 {
      XsEscape(n - 1);
      assert Xs(n)[1..] == Xs(n - 1);
    }
  }

  lemma FrameLength(n: nat)
    ensures ByteLen(Field(NAME_KEY, "a")) == 8 && ByteLen(Field(VALUE_KEY, Xs(n))) == n + 7
  {
    XsEscape(n);
    assert Escape("a") == "a" by { assert "a"[1..] == ""; }
    var name, value := NAME_KEY + "a" + "\"", VALUE_KEY + Xs(n) + "\"";
    assert Ascii(name) && |name| == 8;
    assert Ascii(value) && |value| == n + 7;
    AsciiByteLen(name);
    AsciiByteLen(value);
  }

  /** One entry of that shape packs exactly while its expiry is short enough. */
  lemma OneEntryPacks(n: nat, exp: Int64)
    ensures Pack([Entry("a", Xs(n), exp)]).Some? <==> 18 + n + |ExpiryField(exp)| <= 2304
  {
    var e := Entry("a", Xs(n), exp);
    hide Pack, ByteLen, ExpiryField, Field, EntryText, Xs;
    PacksByLength([e]);
    EntryLength(e);
    FrameLength(n);
    ByteLenAppend(EntryText(e), "]");
    CloseBracket();
    assert Items([e]) == EntryText(e) + "]";
  }

  lemma CloseBracket()
    ensures ByteLen("]") == 1
  {
    AsciiByteLen("]");
  }

  lemma TenAndEleven()
    ensures |Decimal(9_999_999_999)| == 10 && |Decimal(10_000_000_000)| == 11
  {
    assert |Decimal(99)| == 2 && |Decimal(999)| == 3;
    assert |Decimal(9_999)| == 4 && |Decimal(99_999)| == 5;
    assert |Decimal(999_999)| == 6 && |Decimal(9_999_999)| == 7;
    assert |Decimal(99_999_999)| == 8 && |Decimal(999_999_999)| == 9;
    assert |Decimal(100)| == 3 && |Decimal(1_000)| == 4;
    assert |Decimal(10_000)| == 5 && |Decimal(100_000)| == 6;
    assert |Decimal(1_000_000)| == 7 && |Decimal(10_000_000)| == 8;
    assert |Decimal(100_000_000)| == 9 && |Decimal(1_000_000_000)| == 10;
  }

  lemma FieldLengths()
    ensures |ExpiryField(9_999_999_999)| == 15 && |ExpiryField(10_000_000_000)| == 16
  {
    TenAndEleven();
    hide Decimal;
    assert |EXPIRY_KEY| == 5;
  }

  lemma FoldOne(c: Cookie, now: Clock)
    requires 0 < c.maxAge <= MAX_COOKIE_AGE
    ensures Fold(Jars([], []), [c], now) == Jars([], [Entry(c.name, c.value, now + c.maxAge)])
  {
    ExpiryExact(now, c.maxAge);
    assert [c][..0] == [];
    assert Fold(Jars([], []), [c][..0], now) == Jars([], []);
  }

  /** The condition is needed: a response one byte under the bound is accepted one second before its expiry
      reaches eleven digits and would not have been a second later. */
  lemma FitsNoLonger()
    ensures var c, t := Cookie("a", Xs(2271), 1), 9_999_999_998;
            JarFits([c], t) && !JarFits([c], t + 1)
  {
    var c, t := Cookie("a", Xs(2271), 1), 9_999_999_998;
    hide Xs, Fold, Pack, ExpiryField;
    FoldOne(c, t);
    FoldOne(c, t + 1);
    OneEntryPacks(2271, 9_999_999_999);
    OneEntryPacks(2271, 10_000_000_000);
    FieldLengths();
    EmptyPacks();
  }
}
