/** The jars in a browser with a clock: what the host wrote, what the browser still has of it, and what a
    response leaves there.  A visitor may plant anything: `touched` collects the names a plant has reached. */
module JarRun {
  import opened Wrappers
  import opened JarJson
  import opened Jar
  import opened JarHeader

  // ---- the browser -------------------------------------------------------------------------------

  /** A cookie a browser holds; with no expiry it lasts the browser session. */
  datatype Stored = Stored(value: string, expires: Option<int>)

  /** The cookies at the path the host writes each at.  An expired one is as good as gone: it is never sent. */
  type Browser = map<string, Stored>

  predicate Unexpired(s: Stored, now: int) { s.expires.None? || now < s.expires.value }

  /** What a Set-Cookie does when it arrives: section 5.3 of RFC 6265. */
  function Store(b: Browser, c: JarCookie, at: int): Browser {
    if c.maxAge < 0 then b - {c.name}
    else if c.maxAge == 0 then b[c.name := Stored(c.value, None)]
    else b[c.name := Stored(c.value, Some(at + c.maxAge))]
  }

  function StoreAll(b: Browser, cs: seq<JarCookie>, at: int): Browser {
    if cs == [] then b else Store(StoreAll(b, cs[..|cs| - 1], at), cs[|cs| - 1], at)
  }

  /** The header of a request to this add-on: its own jars, scoped to its path, are somewhere in it unless they
      have expired.  Nothing is asked of what else is there, in what order or how often: other add-ons' jars are
      not sent here, and a visitor may plant cookies of any name at any path. */
  ghost predicate IsHeader(sent: seq<SentCookie>, b: Browser, addon: string, now: int) {
    forall kept :: var n := JarName(addon, kept); n in b && Unexpired(b[n], now) ==> HeldName(sent, n)
  }

  // ---- the shape of jars -------------------------------------------------------------------------

  ghost predicate UniqueJars(j: Jars) { UniqueNames(j.session) && UniqueNames(j.kept) }

  ghost predicate HostWritten(j: Jars) { UniqueJars(j) && Pack(j.session).Some? && Pack(j.kept).Some? }

  /** An entry for this name that only the host can have written: in one class, without an expiry in the
      session jar, and with one no further off than the longest lifetime in the kept jar. */
  ghost predicate Clean(j: Jars, name: string, now: int) {
    var s, k := Find(j.session, name), Find(j.kept, name);
    (s.None? || k.None?) && (s.Some? ==> s.value.exp == 0) && (k.Some? ==> 0 < k.value.exp <= now + MAX_COOKIE_AGE)
  }

  ghost predicate HoldsSession(b: Browser, name: string, es: seq<Entry>) {
    if name in b then b[name].expires.None? && es != [] && Pack(es) == Some(b[name].value) else es == []
  }

  /** As of the host's last response: either the browser has the jar, and no untouched entry outlives it, or all of
      those have expired. */
  ghost predicate HoldsKept(b: Browser, name: string, es: seq<Entry>, since: int, touched: set<string>) {
    if name in b && Unexpired(b[name], since) then
      && es != [] && Pack(es) == Some(b[name].value) && b[name].expires.Some?
      && forall e :: e in es && e.name !in touched ==> e.exp <= b[name].expires.value
    else
      forall e :: e in es && e.name !in touched ==> e.exp <= since
  }

  ghost predicate Holds(b: Browser, addon: string, j: Jars, since: int, touched: set<string>) {
    HoldsSession(b, JarName(addon, false), j.session) && HoldsKept(b, JarName(addon, true), j.kept, since, touched)
  }

  /** The names whose reading, class by class, a header changes from what the host last wrote. */
  function Touched(read: Reader, addon: string, sent: seq<SentCookie>, prefixes: seq<string>, now: int,
                   j: Jars): set<string> {
    var got, live := JarsFrom(read, addon, sent, prefixes, now), KeepLive(j, prefixes, now);
    set n | n in Names(got.session) + Names(got.kept) + Names(live.session) + Names(live.kept)
            && (Find(got.session, n) != Find(live.session, n) || Find(got.kept, n) != Find(live.kept, n))
  }

  lemma Untouched(read: Reader, addon: string, sent: seq<SentCookie>, prefixes: seq<string>, now: int, j: Jars, name: string)
    ensures name !in Touched(read, addon, sent, prefixes, now, j) <==>
              var got, live := JarsFrom(read, addon, sent, prefixes, now), KeepLive(j, prefixes, now);
              Find(got.session, name) == Find(live.session, name) && Find(got.kept, name) == Find(live.kept, name)
  {
    var got, live := JarsFrom(read, addon, sent, prefixes, now), KeepLive(j, prefixes, now);
    hide JarsFrom, KeepLive, Names, Find;
    FindNames(got.session, name);
    FindNames(got.kept, name);
    FindNames(live.session, name);
    FindNames(live.kept, name);
  }

  // ---- what a plant can reach ----------------------------------------------------------------------

  /** What the browser sends of the host's own cookie of this name. */
  function OwnValue(b: Browser, name: string, now: int): seq<string> {
    if name in b && Unexpired(b[name], now) then [b[name].value] else []
  }

  /** Section 5.4 of RFC 6265: the host's jars, at the longer path, come before any planted of their names. */
  ghost predicate HostFirst(sent: seq<SentCookie>, b: Browser, now: int, addon: string) {
    forall kept :: var n := JarName(addon, kept); OwnValue(b, n, now) <= Values(sent, n)
  }

  function Planted(sent: seq<SentCookie>, b: Browser, now: int, name: string): seq<string>
    requires OwnValue(b, name, now) <= Values(sent, name)
  {
    Values(sent, name)[|OwnValue(b, name, now)|..]
  }

  /** The host's jars and nothing planted under their names. */
  ghost predicate Unplanted(sent: seq<SentCookie>, b: Browser, now: int, addon: string) {
    forall kept :: var n := JarName(addon, kept); Values(sent, n) == OwnValue(b, n, now)
  }

  /** What the browser still has of what the host wrote. */
  function InBrowser(b: Browser, addon: string, j: Jars, now: int): Jars {
    Jars(j.session, if OwnValue(b, JarName(addon, true), now) == [] then [] else j.kept)
  }

  lemma OwnCarries(read: Reader, b: Browser, addon: string, j: Jars, since: int, asked: int, touched: set<string>, name: string)
    requires Inverts(read) && HostWritten(j) && Holds(b, addon, j, since, touched) && since <= asked
    ensures Carried(read, OwnValue(b, JarName(addon, false), asked), name) == Find(InBrowser(b, addon, j, asked).session, name)
    ensures Carried(read, OwnValue(b, JarName(addon, true), asked), name) == Find(InBrowser(b, addon, j, asked).kept, name)
  {
    UnpackPack(read, j.session);
    UnpackPack(read, j.kept);
    FirstIsOnly(j.session, name);
    FirstIsOnly(j.kept, name);
    hide JarName, Pack, Unpack, UniqueNames, FirstIn, Find, Inverts;
    CarriedOne(read, OwnValue(b, JarName(addon, false), asked), name);
    CarriedOne(read, OwnValue(b, JarName(addon, true), asked), name);
    FindNothing(name);
  }

  lemma CarriedOne(read: Reader, values: seq<string>, name: string)
    ensures |values| == 0 ==> Carried(read, values, name) == None
    ensures |values| == 1 ==> Carried(read, values, name) == FirstIn(Unpack(read, values[0]), name)
  {
    if |values| == 1 { assert values[..0] == []; }
  }

  lemma FindNothing(name: string)
    ensures Find([], name) == None
  {
  }

  /** A clean name whose kept jar the browser had dropped when it asked is dead by the time the host reads. */
  lemma DroppedIsDead(b: Browser, addon: string, j: Jars, prefixes: seq<string>, since: int, asked: int, now: int,
                      touched: set<string>, name: string)
    requires HostWritten(j) && Holds(b, addon, j, since, touched) && since <= asked <= now
    requires name !in touched && Clean(j, name, now)
    ensures Readable(Find(InBrowser(b, addon, j, asked).kept, name), prefixes, now)
            == Readable(Find(j.kept, name), prefixes, now)
  {
    FindNames(j.kept, name);
    hide JarName, Pack, OwnedName;
  }

  lemma LiveLookups(j: Jars, prefixes: seq<string>, now: int, name: string)
    requires UniqueJars(j)
    ensures var live := KeepLive(j, prefixes, now);
            && Find(live.session, name) == Readable(Find(j.session, name), prefixes, now)
            && Find(live.kept, name) == Readable(Find(j.kept, name), prefixes, now)
  {
    FindFilter(j.session, LiveOwned(prefixes, now), name);
    FindFilter(j.kept, LiveOwned(prefixes, now), name);
  }

  function Or(first: Option<Entry>, second: Option<Entry>): Option<Entry> { if first.Some? then first else second }

  lemma CarriedBehind(read: Reader, sent: seq<SentCookie>, b: Browser, now: int, jar: string, name: string)
    requires OwnValue(b, jar, now) <= Values(sent, jar)
    ensures Carried(read, Values(sent, jar), name)
            == Or(Carried(read, OwnValue(b, jar, now), name), Carried(read, Planted(sent, b, now, jar), name))
  {
    var own, rest := OwnValue(b, jar, now), Planted(sent, b, now, jar);
    assert Values(sent, jar) == own + rest;
    CarriedAppend(read, own, rest, name);
  }

  /** What the host reads of a header with its own jars first, name by name: its own entry in each class, or
      failing that the first planted one. */
  lemma HeaderLookups(read: Reader, b: Browser, addon: string, j: Jars, sent: seq<SentCookie>, prefixes: seq<string>,
                      since: int, asked: int, now: int, touched: set<string>, name: string)
    requires Inverts(read) && HostWritten(j) && Holds(b, addon, j, since, touched)
    requires since <= asked && HostFirst(sent, b, asked, addon)
    ensures var own, got := InBrowser(b, addon, j, asked), JarsFrom(read, addon, sent, prefixes, now);
            var s, k := JarName(addon, false), JarName(addon, true);
            && OwnValue(b, s, asked) <= Values(sent, s) && OwnValue(b, k, asked) <= Values(sent, k)
            && Find(got.session, name)
               == Readable(Or(Find(own.session, name), Carried(read, Planted(sent, b, asked, s), name)), prefixes, now)
            && Find(got.kept, name)
               == Readable(Or(Find(own.kept, name), Carried(read, Planted(sent, b, asked, k), name)), prefixes, now)
  {
    var s, k := JarName(addon, false), JarName(addon, true);
    OwnCarries(read, b, addon, j, since, asked, touched, name);
    assert OwnValue(b, s, asked) <= Values(sent, s) && OwnValue(b, k, asked) <= Values(sent, k);
    hide Holds, HostWritten, Carried, Find, JarsFrom, JarName, Values, OwnValue, Inverts, Readable, HostFirst, Planted, Or,
         InBrowser;
    JarsCarry(read, addon, sent, prefixes, now, name);
    CarriedBehind(read, sent, b, asked, s, name);
    CarriedBehind(read, sent, b, asked, k, name);
  }

  /** A plant behind the host's jars touches a name exactly when, in some class, the host's jar does not carry
      it and the planted ones carry it readably: what a host's jar carries is out of reach in its own class. */
  lemma PlantedTouches(read: Reader, b: Browser, addon: string, j: Jars, sent: seq<SentCookie>, prefixes: seq<string>,
                       since: int, asked: int, now: int, touched: set<string>, name: string)
    requires Inverts(read) && HostWritten(j) && Holds(b, addon, j, since, touched)
    requires since <= asked && HostFirst(sent, b, asked, addon)
    requires name !in touched && Clean(j, name, now) && asked <= now
    ensures var own, s, k := InBrowser(b, addon, j, asked), JarName(addon, false), JarName(addon, true);
            name in Touched(read, addon, sent, prefixes, now, j) <==>
              (Find(own.session, name).None? && Readable(Carried(read, Planted(sent, b, asked, s), name), prefixes, now).Some?)
              || (Find(own.kept, name).None? && Readable(Carried(read, Planted(sent, b, asked, k), name), prefixes, now).Some?)
  {
    HeaderLookups(read, b, addon, j, sent, prefixes, since, asked, now, touched, name);
    DroppedIsDead(b, addon, j, prefixes, since, asked, now, touched, name);
    LiveLookups(j, prefixes, now, name);
    hide Holds, HostWritten, Clean, Carried, Find, JarsFrom, KeepLive, Touched, JarName, Values, OwnValue, Inverts, OwnedName,
         HostFirst, Planted;
    Untouched(read, addon, sent, prefixes, now, j, name);
  }

  lemma UnplantedIsFirst(sent: seq<SentCookie>, b: Browser, asked: int, addon: string)
    requires Unplanted(sent, b, asked, addon)
    ensures var s, k := JarName(addon, false), JarName(addon, true);
            && HostFirst(sent, b, asked, addon)
            && OwnValue(b, s, asked) <= Values(sent, s) && OwnValue(b, k, asked) <= Values(sent, k)
            && Planted(sent, b, asked, s) == [] && Planted(sent, b, asked, k) == []
  {
    hide JarName, Values, OwnValue;
    var s, k := JarName(addon, false), JarName(addon, true);
    assert Values(sent, s) == OwnValue(b, s, asked) && Values(sent, k) == OwnValue(b, k, asked);
  }

  lemma ReadableNone(prefixes: seq<string>, now: int)
    ensures Readable(None, prefixes, now) == None
  {
  }

  /** A header in which nothing is planted touches nothing, the browser's dropping of the kept jar included. */
  lemma UnplantedTouchesNothing(read: Reader, b: Browser, addon: string, j: Jars, sent: seq<SentCookie>,
                                prefixes: seq<string>, since: int, asked: int, now: int, touched: set<string>, name: string)
    requires Inverts(read) && HostWritten(j) && Holds(b, addon, j, since, touched)
    requires since <= asked && Unplanted(sent, b, asked, addon)
    requires name !in touched && Clean(j, name, now) && asked <= now
    ensures name !in Touched(read, addon, sent, prefixes, now, j)
  {
    UnplantedIsFirst(sent, b, asked, addon);
    hide Holds, HostWritten, Clean, Find, Touched, JarName, Values, OwnValue, Inverts, Planted, HostFirst, Unplanted,
         Carried, Readable;
    ReadableNone(prefixes, now);
    PlantedTouches(read, b, addon, j, sent, prefixes, since, asked, now, touched, name);
    CarriedOne(read, [], name);
  }

  lemma {:induction false} NothingLive(es: seq<Entry>, prefixes: seq<string>, now: int)
    requires forall e :: e in es ==> 0 < e.exp <= now
    ensures Filter(es, LiveOwned(prefixes, now)) == []
  {
    if es != [] {
      assert es[|es| - 1] in es;
      NothingLive(es[..|es| - 1], prefixes, now);
    }
  }

  /** From a header with nothing planted the host reads back the live part of exactly what it wrote, however long
      after the browser asked: a jar that expired on the way, or before, makes no difference. */
  lemma HostReadsBack(read: Reader, b: Browser, addon: string, j: Jars, sent: seq<SentCookie>,
                      prefixes: seq<string>, since: int, asked: int, now: int)
    requires Inverts(read) && HostWritten(j) && Holds(b, addon, j, since, {}) && Unplanted(sent, b, asked, addon)
    requires since <= asked <= now && forall e :: e in j.kept ==> e.exp > 0
    ensures JarsFrom(read, addon, sent, prefixes, now) == KeepLive(j, prefixes, now)
  {
    var s, k := JarName(addon, false), JarName(addon, true);
    assert Values(sent, s) == OwnValue(b, s, asked) && Values(sent, k) == OwnValue(b, k, asked);
    RawOfValues(read, addon, sent);
    UnpackPack(read, j.session);
    UnpackPack(read, j.kept);
    MergeIntoEmpty(j.session);
    MergeIntoEmpty(j.kept);
    MergedOne(read, OwnValue(b, s, asked));
    MergedOne(read, OwnValue(b, k, asked));
    if !(k in b && Unexpired(b[k], asked)) { NothingLive(j.kept, prefixes, now); }
  }

  /** Jars of one name, merged in order. */
  function Merged(read: Reader, values: seq<string>): seq<Entry> {
    if values == [] then [] else Merge(Merged(read, values[..|values| - 1]), Unpack(read, values[|values| - 1]))
  }

  lemma MergedOne(read: Reader, values: seq<string>)
    ensures |values| == 0 ==> Merged(read, values) == []
    ensures |values| == 1 ==> Merged(read, values) == Merge([], Unpack(read, values[0]))
  {
    if |values| == 1 { assert values[..0] == []; }
  }

  lemma {:induction false} RawOfValues(read: Reader, addon: string, sent: seq<SentCookie>)
    ensures RawJars(read, addon, sent)
            == Jars(Merged(read, Values(sent, JarName(addon, false))), Merged(read, Values(sent, JarName(addon, true))))
  {
    if sent != [] {
      RawOfValues(read, addon, sent[..|sent| - 1]);
      JarNamesDiffer(addon);
      hide JarName, Merge, Unpack;
      ValuesNext(sent, JarName(addon, false));
      ValuesNext(sent, JarName(addon, true));
    }
  }

  // ---- one response, on the jars alone -----------------------------------------------------------

  function Folded(j: Jars, prefixes: seq<string>, cookies: seq<Cookie>, now: Clock): Jars {
    Fold(KeepLive(j, prefixes, now), cookies, now)
  }

  function Survivors(folded: Jars): Jars { Jars(Evict(folded.session), Evict(folded.kept)) }

  function Lost(folded: Jars): set<string>
    requires Dropped(folded.session) <= |folded.session| && Dropped(folded.kept) <= |folded.kept|
  {
    Names(folded.session[..Dropped(folded.session)]) + Names(folded.kept[..Dropped(folded.kept)])
  }

  lemma FilterNames(es: seq<Entry>, keep: Keep)
    ensures Names(Filter(es, keep)) <= Names(es)
    ensures forall e :: e in Filter(es, keep) ==> keep.Keeps(e) && e in es
  {
    FilterMembers(es, keep);
    forall n | n in Names(Filter(es, keep)) ensures n in Names(es) {
      var i :| 0 <= i < |Filter(es, keep)| && Filter(es, keep)[i].name == n;
      assert Filter(es, keep)[i] in es;
    }
  }

  lemma AppendUnique(es: seq<Entry>, e: Entry)
    requires UniqueNames(es) && e.name !in Names(es)
    ensures UniqueNames(es + [e]) && Names(es + [e]) == Names(es) + {e.name}
  {
    NamesAppend(es, [e]);
    assert [e][0].name in Names([e]);
  }

  lemma NotNamedGone(es: seq<Entry>, name: string)
    ensures name !in Names(Filter(es, NotNamed(name)))
  {
    var r := Filter(es, NotNamed(name));
    FilterMembers(es, NotNamed(name));
    assert forall i :: 0 <= i < |r| ==> r[i] in r;
  }

  lemma ApplyUnique(j: Jars, c: Cookie, now: Clock)
    requires UniqueJars(j)
    ensures UniqueJars(ApplyToJar(j, c, now))
  {
    var keep := NotNamed(c.name);
    var s, k := Filter(j.session, keep), Filter(j.kept, keep);
    FilterUnique(j.session, keep);
    FilterUnique(j.kept, keep);
    NotNamedGone(j.session, c.name);
    NotNamedGone(j.kept, c.name);
    AppendUnique(s, Entry(c.name, c.value, 0));
    AppendUnique(k, Entry(c.name, c.value, Expiry(now, c.maxAge)));
  }

  lemma {:induction false} FoldUnique(j: Jars, cookies: seq<Cookie>, now: Clock)
    requires UniqueJars(j)
    ensures UniqueJars(Fold(j, cookies, now))
  {
    if cookies != [] {
      FoldUnique(j, cookies[..|cookies| - 1], now);
      ApplyUnique(Fold(j, cookies[..|cookies| - 1], now), cookies[|cookies| - 1], now);
    }
  }

  ghost predicate ShortLived(cookies: seq<Cookie>) {
    forall i :: 0 <= i < |cookies| ==> cookies[i].maxAge <= MAX_COOKIE_AGE
  }

  /** Nothing folded is dead: what was read is live, and what is set is new. */
  lemma {:induction false} FoldLive(j: Jars, cookies: seq<Cookie>, now: Clock)
    requires AllLive(j.session, now) && AllLive(j.kept, now) && ShortLived(cookies)
    ensures AllLive(Fold(j, cookies, now).session, now) && AllLive(Fold(j, cookies, now).kept, now)
  {
    if cookies != [] {
      var init, c := cookies[..|cookies| - 1], cookies[|cookies| - 1];
      FoldLive(j, init, now);
      var before := Fold(j, init, now);
      FilterMembers(before.session, NotNamed(c.name));
      FilterMembers(before.kept, NotNamed(c.name));
      if c.maxAge > 0 { ExpiryExact(now, c.maxAge); }
    }
  }

  lemma SuffixUnique(es: seq<Entry>, d: nat)
    requires UniqueNames(es) && d <= |es|
    ensures UniqueNames(es[d..]) && Names(es[d..]) <= Names(es) && Names(es[..d]) !! Names(es[d..])
  {
    forall n | n in Names(es[d..]) ensures n in Names(es) && n !in Names(es[..d]) {
      var i :| 0 <= i < |es[d..]| && es[d..][i].name == n;
      assert es[d + i].name == n;
    }
  }

  /** After any response the jars are again of the shape the host writes. */
  lemma SurvivorsHostWritten(folded: Jars)
    requires UniqueJars(folded)
    ensures HostWritten(Survivors(folded))
  {
    EvictIsLongest(folded.session);
    EvictIsLongest(folded.kept);
    hide Evict, Dropped, Pack;
    SuffixUnique(folded.session, Dropped(folded.session));
    SuffixUnique(folded.kept, Dropped(folded.kept));
  }

  lemma SurvivorsLive(folded: Jars, now: int)
    requires AllLive(folded.kept, now)
    ensures AllLive(Survivors(folded).kept, now)
  {
    EvictIsLongest(folded.kept);
    hide Evict, Dropped, Pack;
    var d := Dropped(folded.kept);
    forall e | e in folded.kept[d..] ensures LiveEntry(e, now) { assert e in folded.kept; }
  }

  // ---- one response, through the browser ---------------------------------------------------------

  lemma StoreSession(b: Browser, name: string, es: seq<Entry>, held: bool, now: Clock, at: int)
    requires Pack(es).Some? && (name in b ==> held && b[name].expires.None?)
    ensures HoldsSession(StoreAll(b, ClassCookies(name, false, es, held, now), at), name, es)
  {
    var cs := ClassCookies(name, false, es, held, now);
    if cs != [] { assert cs[..0] == []; }
  }

  /** The jar's own lifetime covers every untouched entry, whatever planted entries it also holds. */
  lemma StoreKept(b: Browser, name: string, es: seq<Entry>, held: bool, now: Clock, at: int, touched: set<string>)
    requires Pack(es).Some? && at >= now && (name in b && Unexpired(b[name], now) ==> held) && AllLive(es, now)
    requires forall e :: e in es && e.name !in touched ==> e.exp <= now + MAX_COOKIE_AGE
    ensures HoldsKept(StoreAll(b, ClassCookies(name, true, es, held, now), at), name, es, now, touched)
  {
    var cs := ClassCookies(name, true, es, held, now);
    if cs != [] { assert cs[..0] == []; }
    LongestIsMaximum(es, now);
    MaxAgeInRange(es, now);
  }

  lemma {:induction false} StoreOthers(b: Browser, cs: seq<JarCookie>, at: int, name: string)
    requires forall c :: c in cs ==> c.name != name
    ensures name in StoreAll(b, cs, at) <==> name in b
    ensures name in b ==> StoreAll(b, cs, at)[name] == b[name]
  {
    if cs != [] {
      StoreOthers(b, cs[..|cs| - 1], at, name);
      assert cs[|cs| - 1] in cs;
    }
  }

  lemma {:induction false} StoreAppend(b: Browser, xs: seq<JarCookie>, ys: seq<JarCookie>, at: int)
    ensures StoreAll(b, xs + ys, at) == StoreAll(StoreAll(b, xs, at), ys, at)
  {
    if ys == [] {
      assert xs + ys == xs;
    } else {
      StoreAppend(b, xs, ys[..|ys| - 1], at);
      assert (xs + ys)[..|xs + ys| - 1] == xs + ys[..|ys| - 1];
    }
  }

  lemma ClassNames(name: string, kept: bool, es: seq<Entry>, held: bool, now: Clock)
    ensures var cs := ClassCookies(name, kept, es, held, now); forall i :: 0 <= i < |cs| ==> cs[i].name == name
  {
  }

  lemma TwoStores(b: Browser, s: string, k: string, es: seq<Entry>, ek: seq<Entry>, held: (bool, bool),
                  now: Clock, at: int, touched: set<string>)
    requires s != k && at >= now && Pack(es).Some? && Pack(ek).Some? && AllLive(ek, now)
    requires (s in b ==> held.0 && b[s].expires.None?) && (k in b && Unexpired(b[k], now) ==> held.1)
    requires forall e :: e in ek && e.name !in touched ==> e.exp <= now + MAX_COOKIE_AGE
    ensures var b' := StoreAll(b, ClassCookies(s, false, es, held.0, now) + ClassCookies(k, true, ek, held.1, now), at);
            HoldsSession(b', s, es) && HoldsKept(b', k, ek, now, touched)
  {
    var cs := ClassCookies(s, false, es, held.0, now);
    var ck := ClassCookies(k, true, ek, held.1, now);
    var b1 := StoreAll(b, cs, at);
    hide Pack, ClassCookies, StoreAll;
    ClassNames(s, false, es, held.0, now);
    ClassNames(k, true, ek, held.1, now);
    StoreAppend(b, cs, ck, at);
    StoreSession(b, s, es, held.0, now, at);
    StoreOthers(b, cs, at, k);
    StoreKept(b1, k, ek, held.1, now, at, touched);
    StoreOthers(b1, ck, at, s);
  }

  lemma FindMember(es: seq<Entry>, e: Entry)
    requires UniqueNames(es) && e in es
    ensures Find(es, e.name) == Some(e)
  {
    FindNames(es, e.name);
    var i :| 0 <= i < |es| && es[i] == e;
    assert es[i].name in Names(es);
  }

  lemma CleanLifetimes(j: Jars, now: int, touched: set<string>)
    requires UniqueJars(j) && forall name :: name !in touched ==> Clean(j, name, now)
    ensures forall e :: e in j.kept && e.name !in touched ==> 0 < e.exp <= now + MAX_COOKIE_AGE
  {
    forall e | e in j.kept && e.name !in touched ensures 0 < e.exp <= now + MAX_COOKIE_AGE {
      FindMember(j.kept, e);
      assert Clean(j, e.name, now);
    }
  }

  /** One response to any request this browser can send the add-on, made any time after it and stored any time
      after that, leaves the browser holding exactly the survivors of folding it into what the request carried. */
  lemma ResponseHolds(read: Reader, b: Browser, addon: string, sent: seq<SentCookie>, prefixes: seq<string>,
                      cookies: seq<Cookie>, since: int, asked: int, now: Clock, at: int, j: Jars,
                      before: set<string>, touched: set<string>)
    requires Holds(b, addon, j, since, before) && IsHeader(sent, b, addon, asked) && asked <= now <= at
    requires cookies != [] && ShortLived(cookies)
    requires var f := Survivors(Fold(JarsFrom(read, addon, sent, prefixes, now), cookies, now));
             forall name :: name !in touched ==> Clean(f, name, now)
    ensures var f := Fold(JarsFrom(read, addon, sent, prefixes, now), cookies, now);
            HostWritten(Survivors(f))
            && Holds(StoreAll(b, JarCookies(read, addon, sent, prefixes, cookies, now).0, at), addon, Survivors(f), now, touched)
            && JarCookies(read, addon, sent, prefixes, cookies, now).1 == Dropped(f.session) + Dropped(f.kept)
  {
    var s, k := JarName(addon, false), JarName(addon, true);
    var r := JarsFrom(read, addon, sent, prefixes, now);
    var f := Fold(r, cookies, now);
    FoldedShape(read, addon, sent, prefixes, cookies, now);
    SurvivorsHostWritten(f);
    SurvivorsLive(f, now);
    CleanLifetimes(Survivors(f), now, touched);
    JarNamesDiffer(addon);
    assert s in b ==> b[s].expires.None? && HeldName(sent, s);
    assert k in b && Unexpired(b[k], now) ==> Unexpired(b[k], asked) && HeldName(sent, k);
    hide JarName, Pack, Evict, Dropped, ClassCookies, StoreAll, Fold, HoldsKept, UniqueJars, JarsFrom, Clean;
    TwoStores(b, s, k, Evict(f.session), Evict(f.kept), (HeldName(sent, s), HeldName(sent, k)), now, at, touched);
  }

  /** What any header folds into: unique names, nothing dead. */
  lemma FoldedShape(read: Reader, addon: string, sent: seq<SentCookie>, prefixes: seq<string>, cookies: seq<Cookie>,
                    now: Clock)
    requires ShortLived(cookies)
    ensures var f := Fold(JarsFrom(read, addon, sent, prefixes, now), cookies, now);
            UniqueJars(f) && AllLive(f.session, now) && AllLive(f.kept, now)
  {
    var raw, r := RawJars(read, addon, sent), JarsFrom(read, addon, sent, prefixes, now);
    JarsCarry(read, addon, sent, prefixes, now, "");
    FilterMembers(raw.session, LiveOwned(prefixes, now));
    FilterMembers(raw.kept, LiveOwned(prefixes, now));
    FoldUnique(r, cookies, now);
    FoldLive(r, cookies, now);
  }

  // ---- what is written, in the source's terms ------------------------------------------------------

  /** An age that covers every entry up to the bound, and no more than the longest-lived entry needs. */
  ghost predicate LivesAsLong(age: int, es: seq<Entry>, now: int) {
    && 1 <= age <= MAX_COOKIE_AGE
    && (age < MAX_COOKIE_AGE ==> forall e :: e in es ==> e.exp <= now + age)
    && (age > 1 ==> exists e :: e in es && now + age <= e.exp)
  }

  /** What is written for one class, said of the entries that survived. */
  ghost predicate WrittenFor(out: seq<JarCookie>, name: string, kept: bool, es: seq<Entry>, held: bool, now: int) {
    && ((exists c :: c in out && c.name == name) <==> es != [] || held)
    && (forall c :: c in out && c.name == name ==>
          if es == [] then c.maxAge == -1 && c.value == ""
          else Some(c.value) == Pack(es) && if kept then LivesAsLong(c.maxAge, es, now) else c.maxAge == 0)
  }

  lemma ClassWritten(name: string, kept: bool, es: seq<Entry>, held: bool, now: Clock)
    requires Pack(es).Some? && AllLive(es, now)
    ensures var out := ClassCookies(name, kept, es, held, now);
            WrittenFor(out, name, kept, es, held, now) && forall c :: c in out ==> c.name == name
  {
    hide Pack;
    LongestIsMaximum(es, now);
    MaxAgeInRange(es, now);
    var out := ClassCookies(name, kept, es, held, now);
    if es != [] || held { assert out[0] in out && out[0].name == name; }
  }

  lemma WrittenBeside(out: seq<JarCookie>, other: seq<JarCookie>, name: string, kept: bool, es: seq<Entry>, held: bool, now: int)
    requires WrittenFor(out, name, kept, es, held, now) && forall c :: c in other ==> c.name != name
    ensures WrittenFor(out + other, name, kept, es, held, now) && WrittenFor(other + out, name, kept, es, held, now)
  {
    hide LivesAsLong, Pack;
    if es != [] || held {
      var c :| c in out && c.name == name;
      assert c in out + other && c in other + out;
    }
  }

  ghost predicate WasSent(sent: seq<SentCookie>, name: string) { exists c :: c in sent && c.name == name }

  lemma SentIsHeld(sent: seq<SentCookie>, name: string)
    ensures HeldName(sent, name) <==> WasSent(sent, name)
  {
    if HeldName(sent, name) {
      var i :| 0 <= i < |sent| && sent[i].name == name;
      assert sent[i] in sent;
    }
  }

  /** All that one response writes: the session jar with no age; the kept jar for as long as the longest-lived entry
      in it; a deletion exactly where nothing survives of a jar the browser sent; and nothing else. */
  lemma WrittenExactly(read: Reader, addon: string, sent: seq<SentCookie>, prefixes: seq<string>, cookies: seq<Cookie>,
                       now: Clock)
    requires cookies != [] && ShortLived(cookies)
    ensures var f := Fold(JarsFrom(read, addon, sent, prefixes, now), cookies, now);
            var out := JarCookies(read, addon, sent, prefixes, cookies, now).0;
            && WrittenFor(out, JarName(addon, false), false, Evict(f.session), WasSent(sent, JarName(addon, false)), now)
            && WrittenFor(out, JarName(addon, true), true, Evict(f.kept), WasSent(sent, JarName(addon, true)), now)
            && forall c :: c in out ==> c.name == JarName(addon, false) || c.name == JarName(addon, true)
  {
    var f := Fold(JarsFrom(read, addon, sent, prefixes, now), cookies, now);
    var s, k := JarName(addon, false), JarName(addon, true);
    var hs, hk := HeldName(sent, s), HeldName(sent, k);
    SentIsHeld(sent, s);
    SentIsHeld(sent, k);
    FoldedShape(read, addon, sent, prefixes, cookies, now);
    JarNamesDiffer(addon);
    hide Fold, JarsFrom, JarName, HeldName, WasSent;
    EvictedLives(f.session, now);
    EvictedLives(f.kept, now);
    hide Evict, Pack, ClassCookies, WrittenFor, AllLive;
    ClassWritten(s, false, Evict(f.session), hs, now);
    ClassWritten(k, true, Evict(f.kept), hk, now);
    var cs, ck := ClassCookies(s, false, Evict(f.session), hs, now), ClassCookies(k, true, Evict(f.kept), hk, now);
    WrittenBeside(cs, ck, s, false, Evict(f.session), hs, now);
    WrittenBeside(ck, cs, k, true, Evict(f.kept), hk, now);
  }

  lemma EvictedLives(es: seq<Entry>, now: int)
    requires AllLive(es, now)
    ensures Pack(Evict(es)).Some? && AllLive(Evict(es), now)
  {
    EvictIsLongest(es);
    hide Evict, Dropped, Pack;
    forall e | e in es[Dropped(es)..] ensures LiveEntry(e, now) { assert e in es; }
  }

  /** So where the host wrote every survivor, the kept jar dies with the last of them, to the second. */
  lemma KeptJarDiesLast(read: Reader, addon: string, sent: seq<SentCookie>, prefixes: seq<string>, cookies: seq<Cookie>,
                        now: Clock, c: JarCookie)
    requires cookies != [] && ShortLived(cookies) && c in JarCookies(read, addon, sent, prefixes, cookies, now).0
    requires var es := Evict(Fold(JarsFrom(read, addon, sent, prefixes, now), cookies, now).kept);
             c.name == JarName(addon, true) && es != [] && forall e :: e in es ==> now < e.exp <= now + MAX_COOKIE_AGE
    ensures var es := Evict(Fold(JarsFrom(read, addon, sent, prefixes, now), cookies, now).kept);
            (forall e :: e in es ==> e.exp <= now + c.maxAge) && exists e :: e in es && e.exp == now + c.maxAge
  {
    WrittenExactly(read, addon, sent, prefixes, cookies, now);
    hide Fold, JarsFrom, JarName, WasSent, Evict, Pack, JarCookies;
    var es := Evict(Fold(JarsFrom(read, addon, sent, prefixes, now), cookies, now).kept);
    assert es[0] in es;
    if c.maxAge > 1 {
      var e :| e in es && now + c.maxAge <= e.exp;
    }
  }
}
