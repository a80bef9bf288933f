/** What a Cookie header reads as, whatever a visitor planted in it: the jars are merged in header order, the
    first jar of a name wins, and the kept jar outranks the session jar. */
module JarHeader {
  import opened Wrappers
  import opened JarJson
  import opened Jar

  /** The values a header carries under one cookie name, in order. */
  function Values(sent: seq<SentCookie>, name: string): seq<string> {
    if sent == [] then []
    else
      var last := sent[|sent| - 1];
      Values(sent[..|sent| - 1], name) + if last.name == name then [last.value] else []
  }

  function FirstIn(es: seq<Entry>, name: string): Option<Entry> {
    if es == [] then None
    else
      var before := FirstIn(es[..|es| - 1], name);
      if before.Some? then before else if es[|es| - 1].name == name then Some(es[|es| - 1]) else None
  }

  /** The entry of a name in the first of these jars that carries one. */
  function Carried(read: Reader, values: seq<string>, name: string): Option<Entry> {
    if values == [] then None
    else
      var before := Carried(read, values[..|values| - 1], name);
      if before.Some? then before else FirstIn(Unpack(read, values[|values| - 1]), name)
  }

  /** That entry if it may be read: live, and under a declared prefix. */
  function Readable(e: Option<Entry>, prefixes: seq<string>, now: int): Option<Entry> {
    if e.Some? && LiveOwned(prefixes, now).Keeps(e.value) then e else None
  }

  lemma {:induction false} MergeFinds(first: seq<Entry>, second: seq<Entry>, name: string)
    requires UniqueNames(first)
    ensures UniqueNames(Merge(first, second))
    ensures Find(Merge(first, second), name) == if Find(first, name).Some? then Find(first, name) else FirstIn(second, name)
  {
    MergeFirstWins(first, second);
    if second != [] {
      var init, e := second[..|second| - 1], second[|second| - 1];
      MergeFinds(first, init, name);
      MergeFirstWins(first, init);
      var merged := Merge(first, init);
      FindNames(merged, e.name);
      if e.name !in Names(merged) { FindAppend(merged, [e], name); }
    }
  }

  lemma {:induction false} FirstIsOnly(es: seq<Entry>, name: string)
    requires UniqueNames(es)
    ensures FirstIn(es, name) == Find(es, name)
  {
    if es != [] {
      var init := es[..|es| - 1];
      FirstIsOnly(init, name);
      FindNames(init, name);
      if Find(init, name).Some? { assert Find(init, name).value in init; }
    }
  }

  /** Over any header, with any number of jars of one name: each class has unique names, and reads every name
      as the first of its jars that carries it. */
  lemma {:induction false} HeaderFirstWins(read: Reader, addon: string, sent: seq<SentCookie>, name: string)
    ensures var j := RawJars(read, addon, sent);
            && UniqueNames(j.session) && UniqueNames(j.kept)
            && Find(j.session, name) == Carried(read, Values(sent, JarName(addon, false)), name)
            && Find(j.kept, name) == Carried(read, Values(sent, JarName(addon, true)), name)
  {
    if sent != [] {
      var init, last := sent[..|sent| - 1], sent[|sent| - 1];
      HeaderFirstWins(read, addon, init, name);
      JarNamesDiffer(addon);
      var before := RawJars(read, addon, init);
      hide JarName, Merge, UniqueNames, Unpack, Names;
      MergeFinds(before.session, Unpack(read, last.value), name);
      MergeFinds(before.kept, Unpack(read, last.value), name);
      ValuesNext(sent, JarName(addon, false));
      ValuesNext(sent, JarName(addon, true));
    }
  }

  lemma ValuesNext(sent: seq<SentCookie>, name: string)
    requires sent != []
    ensures var before, after := Values(sent[..|sent| - 1], name), Values(sent, name);
            if sent[|sent| - 1].name == name then
              after != [] && after[..|after| - 1] == before && after[|after| - 1] == sent[|sent| - 1].value
            else after == before
  {
  }

  lemma {:induction false} CarriedAppend(read: Reader, a: seq<string>, b: seq<string>, name: string)
    ensures Carried(read, a + b, name) == if Carried(read, a, name).Some? then Carried(read, a, name) else Carried(read, b, name)
  {
    if b == [] {
      assert a + b == a;
    } else {
      CarriedAppend(read, a, b[..|b| - 1], name);
      assert (a + b)[..|a + b| - 1] == a + b[..|b| - 1];
    }
  }

  lemma {:induction false} ValuesAppend(a: seq<SentCookie>, b: seq<SentCookie>, name: string)
    ensures Values(a + b, name) == Values(a, name) + Values(b, name)
  {
    if b == [] {
      assert a + b == a;
    } else {
      ValuesAppend(a, b[..|b| - 1], name);
      assert (a + b)[..|a + b| - 1] == a + b[..|b| - 1];
    }
  }

  /** Whatever the beginning of a header holds for a name in a class, the whole header reads the same. */
  lemma EarlierWins(read: Reader, addon: string, sent: seq<SentCookie>, more: seq<SentCookie>, name: string)
    ensures var before, after := RawJars(read, addon, sent), RawJars(read, addon, sent + more);
            && (Find(before.session, name).Some? ==> Find(after.session, name) == Find(before.session, name))
            && (Find(before.kept, name).Some? ==> Find(after.kept, name) == Find(before.kept, name))
  {
    HeaderFirstWins(read, addon, sent, name);
    HeaderFirstWins(read, addon, sent + more, name);
    ValuesAppend(sent, more, JarName(addon, false));
    ValuesAppend(sent, more, JarName(addon, true));
    hide RawJars, JarName, UniqueNames;
    CarriedAppend(read, Values(sent, JarName(addon, false)), Values(more, JarName(addon, false)), name);
    CarriedAppend(read, Values(sent, JarName(addon, true)), Values(more, JarName(addon, true)), name);
  }

  // ---- reading -----------------------------------------------------------------------------------

  /** What a module reads: the record overlays the kept jar on the session jar. */
  function Look(j: Jars, name: string): Option<Entry> { Find(j.session + j.kept, name) }

  lemma LookIsKeptFirst(j: Jars, name: string)
    ensures Look(j, name) == if Find(j.kept, name).Some? then Find(j.kept, name) else Find(j.session, name)
  {
    FindAppend(j.session, j.kept, name);
  }

  /** Each class of what the host reads, name by name. */
  lemma JarsCarry(read: Reader, addon: string, sent: seq<SentCookie>, prefixes: seq<string>, now: int, name: string)
    ensures var j := JarsFrom(read, addon, sent, prefixes, now);
            && UniqueNames(j.session) && UniqueNames(j.kept)
            && Find(j.session, name) == Readable(Carried(read, Values(sent, JarName(addon, false)), name), prefixes, now)
            && Find(j.kept, name) == Readable(Carried(read, Values(sent, JarName(addon, true)), name), prefixes, now)
  {
    HeaderFirstWins(read, addon, sent, name);
    var raw, keep := RawJars(read, addon, sent), LiveOwned(prefixes, now);
    hide RawJars, JarName, OwnedName;
    FindFilter(raw.session, keep, name);
    FindFilter(raw.kept, keep, name);
    FilterUnique(raw.session, keep);
    FilterUnique(raw.kept, keep);
  }

  function JarRead(read: Reader, addon: string, sent: seq<SentCookie>, prefixes: seq<string>, now: int,
                   name: string): Option<string> {
    match Look(JarsFrom(read, addon, sent, prefixes, now), name) case Some(e) => Some(e.value) case None => None
  }

  function ValueOf(e: Option<Entry>): Option<string> { match e case Some(x) => Some(x.value) case None => None }

  lemma ReadIsCarried(read: Reader, addon: string, sent: seq<SentCookie>, prefixes: seq<string>, now: int, name: string)
    ensures var k := Readable(Carried(read, Values(sent, JarName(addon, true)), name), prefixes, now);
            var s := Readable(Carried(read, Values(sent, JarName(addon, false)), name), prefixes, now);
            JarRead(read, addon, sent, prefixes, now, name) == if k.Some? then ValueOf(k) else ValueOf(s)
  {
    JarsCarry(read, addon, sent, prefixes, now, name);
    LookIsKeptFirst(JarsFrom(read, addon, sent, prefixes, now), name);
  }

  /** A value the host's own jars give survives whatever jars a visitor planted behind them exactly when the
      host's kept jar carries the name, or the planted kept jars do not carry it readably first, or carry the
      same value: nothing planted outranks a jar of its own class, but a kept jar outranks a session jar. */
  lemma HostValueSurvives(read: Reader, addon: string, host: seq<SentCookie>, planted: seq<SentCookie>,
                          prefixes: seq<string>, now: int, name: string)
    requires JarRead(read, addon, host, prefixes, now, name).Some?
    ensures var kept := JarName(addon, true);
            var rival := Readable(Carried(read, Values(planted, kept), name), prefixes, now);
            JarRead(read, addon, host + planted, prefixes, now, name) == JarRead(read, addon, host, prefixes, now, name)
            <==> Carried(read, Values(host, kept), name).Some? || rival.None?
                 || ValueOf(rival) == JarRead(read, addon, host, prefixes, now, name)
  {
    var s, k := JarName(addon, false), JarName(addon, true);
    ReadIsCarried(read, addon, host, prefixes, now, name);
    ReadIsCarried(read, addon, host + planted, prefixes, now, name);
    ValuesAppend(host, planted, s);
    ValuesAppend(host, planted, k);
    hide JarRead, JarName, Values, OwnedName;
    CarriedAppend(read, Values(host, s), Values(planted, s), name);
    CarriedAppend(read, Values(host, k), Values(planted, k), name);
  }
}
