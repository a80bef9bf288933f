/** The jar's loops as the host runs them: slices filtered in place, appended to and shortened from the
    front, each held to the function of the same name in jar.dfy. */
module JarHost {
  import opened Wrappers
  import opened JarJson
  import opened Numerals
  import opened Jar
  import Base64Url

  /** A slice of entries: a length over a backing array. */
  class EntrySlice {
    var data: array<Entry>
    var len: nat

    ghost predicate Valid()
      reads this
    {
      len <= data.Length
    }

    ghost function Contents(): seq<Entry>
      reads this, data
      requires Valid()
    {
      data[..len]
    }

    constructor ()
      ensures Valid() && fresh(data) && Contents() == []
    {
      data := new Entry[0];
      len := 0;
    }

    /** append: in place while there is room, into a larger array otherwise. */
    method Append(e: Entry)
      requires Valid()
      modifies this, data
      ensures Valid() && (data == old(data) || fresh(data))
      ensures Contents() == old(Contents()) + [e]
    {
      if len == data.Length {
        var larger := new Entry[2 * len + 1](_ => e);
        for i := 0 to len
          modifies larger
          invariant larger[..i] == data[..i]
        {
          larger[i] := data[i];
        }
        data := larger;
      }
      data[len] := e;
      len := len + 1;
    }

    /** withoutName: the kept entries slide down over the dropped ones. */
    method WithoutName(name: string)
      requires Valid()
      modifies this, data
      ensures Valid() && data == old(data)
      ensures Contents() == Filter(old(Contents()), NotNamed(name))
    {
      ghost var before := Contents();
      var out := 0;
      for i := 0 to len
        modifies data
        invariant out <= i && data[..out] == Filter(before[..i], NotNamed(name))
        invariant forall k :: i <= k < len ==> data[k] == before[k]
      {
        assert before[..i + 1][..i] == before[..i];
        var e := data[i];
        if e.name != name {
          data[out] := e;
          out := out + 1;
        }
      }
      assert before[..len] == before;
      len := out;
    }

    /** keepLive: expired entries and undeclared names are dropped in place. */
    method KeepLive(prefixes: seq<string>, now: Clock)
      requires Valid()
      modifies this, data
      ensures Valid() && data == old(data)
      ensures Contents() == Filter(old(Contents()), LiveOwned(prefixes, now))
    {
      ghost var before := Contents();
      var live := 0;
      for i := 0 to len
        modifies data
        invariant live <= i && data[..live] == Filter(before[..i], LiveOwned(prefixes, now))
        invariant forall k :: i <= k < len ==> data[k] == before[k]
      {
        assert before[..i + 1][..i] == before[..i];
        var e := data[i];
        if e.exp != 0 && e.exp <= now {
          continue;
        }
        if !OwnedName(e.name, prefixes) {
          continue;
        }
        data[live] := e;
        live := live + 1;
      }
      assert before[..len] == before;
      len := live;
    }

    /** mergeJar: `held` remembers the names already taken. */
    method MergeJar(second: seq<Entry>)
      requires Valid()
      modifies this, data
      ensures Valid() && (data == old(data) || fresh(data))
      ensures Contents() == Merge(old(Contents()), second)
    {
      if |second| == 0 {
        return;
      }
      var held: map<string, bool> := map[];
      for i := 0 to len
        modifies {}
        invariant held.Keys == Names(data[..i])
      {
        NamesAppend(data[..i], [data[i]]);
        assert data[..i + 1] == data[..i] + [data[i]] && [data[i]][0].name in Names([data[i]]);
        held := held[data[i].name := true];
      }
      ghost var first := Contents();
      for i := 0 to |second|
        invariant Valid() && (data == old(data) || fresh(data))
        invariant Contents() == Merge(first, second[..i]) && held.Keys == Names(Contents())
      {
        var e := second[i];
        assert second[..i + 1][..i] == second[..i];
        if e.name !in held {
          held := held[e.name := true];
          ghost var sofar := Contents();
          Append(e);
          NamesAppend(sofar, [e]);
          assert [e][0].name in Names([e]);
        }
      }
      assert second[..|second|] == second;
    }
  }

  ghost predicate Separate(session: EntrySlice, kept: EntrySlice)
    reads session, kept
  {
    session != kept && session.Valid() && kept.Valid() && session.data != kept.data
  }

  method JarsFromHeader(read: Reader, addon: string, sent: seq<SentCookie>, prefixes: seq<string>, now: Clock)
    returns (session: EntrySlice, kept: EntrySlice)
    ensures fresh(session) && fresh(kept) && fresh(session.data) && fresh(kept.data) && Separate(session, kept)
    ensures Jars(session.Contents(), kept.Contents()) == JarsFrom(read, addon, sent, prefixes, now)
  {
    session := new EntrySlice();
    kept := new EntrySlice();
    JarNamesDiffer(addon);
    for i := 0 to |sent|
      invariant fresh(session) && fresh(kept) && fresh(session.data) && fresh(kept.data) && Separate(session, kept)
      invariant Jars(session.Contents(), kept.Contents()) == RawJars(read, addon, sent[..i])
    {
      assert sent[..i + 1][..i] == sent[..i];
      if sent[i].name == JarName(addon, false) {
        session.MergeJar(Unpack(read, sent[i].value));
      } else if sent[i].name == JarName(addon, true) {
        kept.MergeJar(Unpack(read, sent[i].value));
      }
    }
    assert sent[..|sent|] == sent;
    session.KeepLive(prefixes, now);
    kept.KeepLive(prefixes, now);
  }

  method ApplyCookie(session: EntrySlice, kept: EntrySlice, c: Cookie, now: Clock)
    requires Separate(session, kept)
    modifies session, kept, session.data, kept.data
    ensures Separate(session, kept)
    ensures (session.data == old(session.data) || fresh(session.data)) && (kept.data == old(kept.data) || fresh(kept.data))
    ensures Jars(session.Contents(), kept.Contents())
            == ApplyToJar(Jars(old(session.Contents()), old(kept.Contents())), c, now)
  {
    session.WithoutName(c.name);
    kept.WithoutName(c.name);
    if c.maxAge < 0 {
    } else if c.maxAge == 0 {
      session.Append(Entry(c.name, c.value, 0));
    } else {
      kept.Append(Entry(c.name, c.value, Expiry(now, c.maxAge)));
    }
  }

  /** packWithEviction: the oldest entry goes until what is left packs.  Its error return cannot be
      reached, since nothing at all packs; survivors and the count dropped are the longest packing suffix's. */
  method PackWithEviction(entries: seq<Entry>) returns (value: string, survived: seq<Entry>, dropped: nat)
    ensures Pack(survived) == Some(value)
    ensures dropped <= |entries| && survived == entries[dropped..]
    ensures forall k :: 0 <= k < dropped ==> Pack(entries[k..]).None?
    ensures survived == Evict(entries) && dropped == Dropped(entries)
  {
    hide Pack;
    EvictIsLongest(entries);
    survived, dropped := entries, 0;
    while true
      invariant dropped <= |entries| && survived == entries[dropped..]
      invariant Evict(survived) == Evict(entries) && Dropped(entries) == dropped + Dropped(survived)
      decreases |survived|
    {
      var packed := Pack(survived);
      if packed.Some? {
        return packed.value, survived, dropped;
      }
      if survived == [] {
        assert false;
      }
      survived := survived[1..];
      dropped := dropped + 1;
    }
  }

  method MaxAge(entries: seq<Entry>, now: Clock) returns (age: int)
    ensures age == JarMaxAge(entries, now) && 1 <= age <= MAX_COOKIE_AGE
  {
    MaxAgeInRange(entries, now);
    var longest := 1;
    for i := 0 to |entries|
      invariant longest == Longest(entries[..i], now)
    {
      assert entries[..i + 1][..i] == entries[..i];
      var remaining := Wrap64(entries[i].exp - now);
      if remaining > longest {
        longest := remaining;
      }
    }
    assert entries[..|entries|] == entries;
    age := if longest > MAX_COOKIE_AGE then MAX_COOKIE_AGE else longest;
  }

  method FoldCookies(session: EntrySlice, kept: EntrySlice, cookies: seq<Cookie>, now: Clock)
    requires Separate(session, kept)
    modifies session, kept, session.data, kept.data
    ensures Separate(session, kept)
    ensures Jars(session.Contents(), kept.Contents())
            == Fold(Jars(old(session.Contents()), old(kept.Contents())), cookies, now)
  {
    ghost var start := Jars(session.Contents(), kept.Contents());
    for i := 0 to |cookies|
      invariant Separate(session, kept)
      invariant (session.data == old(session.data) || fresh(session.data)) && (kept.data == old(kept.data) || fresh(kept.data))
      invariant Jars(session.Contents(), kept.Contents()) == Fold(start, cookies[..i], now)
    {
      assert cookies[..i + 1][..i] == cookies[..i];
      ApplyCookie(session, kept, cookies[i], now);
    }
    assert cookies[..|cookies|] == cookies;
  }

  /** checkJarFits. */
  method CheckJarFits(cookies: seq<Cookie>, now: Clock) returns (ok: bool)
    ensures ok == JarFits(cookies, now)
  {
    if |cookies| == 0 {
      return true;
    }
    var session := new EntrySlice();
    var kept := new EntrySlice();
    FoldCookies(session, kept, cookies, now);
    ok := Pack(session.data[..session.len]).Some? && Pack(kept.data[..kept.len]).Some?;
  }

  /** jarCookies: everything the host writes for one response. */
  method WriteJars(read: Reader, addon: string, sent: seq<SentCookie>, prefixes: seq<string>,
                   cookies: seq<Cookie>, now: Clock)
    returns (out: seq<JarCookie>, dropped: nat)
    ensures out == JarCookies(read, addon, sent, prefixes, cookies, now).0
    ensures dropped == JarCookies(read, addon, sent, prefixes, cookies, now).1
  {
    hide JarCookies, Fold, JarsFrom, ClassCookies, Evict, Dropped, JarName, HeldName;
    out, dropped := [], 0;
    if |cookies| == 0 {
      NothingSet(read, addon, sent, prefixes, cookies, now);
    } else {
      var session, kept := JarsFromHeader(read, addon, sent, prefixes, now);
      FoldCookies(session, kept, cookies, now);
      var c1, d1 := WriteClass(JarName(addon, false), false, session.data[..session.len], sent, now);
      var c2, d2 := WriteClass(JarName(addon, true), true, kept.data[..kept.len], sent, now);
      out, dropped := c1 + c2, d1 + d2;
      Assemble(read, addon, sent, prefixes, cookies, now, c1, c2);
    }
  }

  lemma NothingSet(read: Reader, addon: string, sent: seq<SentCookie>, prefixes: seq<string>,
                   cookies: seq<Cookie>, now: Clock)
    requires cookies == []
    ensures JarCookies(read, addon, sent, prefixes, cookies, now) == ([], 0)
  {}

  lemma Assemble(read: Reader, addon: string, sent: seq<SentCookie>, prefixes: seq<string>,
                 cookies: seq<Cookie>, now: Clock, c1: seq<JarCookie>, c2: seq<JarCookie>)
    requires cookies != []
    requires var f := Fold(JarsFrom(read, addon, sent, prefixes, now), cookies, now);
             && c1 == ClassCookies(JarName(addon, false), false, Evict(f.session), HeldName(sent, JarName(addon, false)), now)
             && c2 == ClassCookies(JarName(addon, true), true, Evict(f.kept), HeldName(sent, JarName(addon, true)), now)
    ensures JarCookies(read, addon, sent, prefixes, cookies, now).0 == c1 + c2
    ensures var f := Fold(JarsFrom(read, addon, sent, prefixes, now), cookies, now);
            JarCookies(read, addon, sent, prefixes, cookies, now).1 == Dropped(f.session) + Dropped(f.kept)
  {
    hide Fold, JarsFrom, Evict, Dropped, ClassCookies, HeldName, JarName;
  }

  /** One turn of the loop over the two lifetime classes. */
  method WriteClass(name: string, kept: bool, entries: seq<Entry>, sent: seq<SentCookie>, now: Clock)
    returns (out: seq<JarCookie>, dropped: nat)
    ensures out == ClassCookies(name, kept, Evict(entries), HeldName(sent, name), now)
    ensures dropped == Dropped(entries)
  {
    var value, survived, lost := PackWithEviction(entries);
    out, dropped := [], lost;
    if value == "" {
      PackedNonEmpty(survived);
      if HeldName(sent, name) {
        out := [JarCookie(name, "", -1)];
      }
      return;
    }
    var age := 0;
    if kept {
      age := MaxAge(survived, now);
    }
    out := [JarCookie(name, value, age)];
  }

  lemma PackedNonEmpty(es: seq<Entry>)
    requires Pack(es).Some?
    ensures Pack(es).value == "" <==> es == []
  {
    if es != [] {
      Base64Url.EncodedLength(Marshal(es));
      MarshalShrinks(es);
    }
  }
}
