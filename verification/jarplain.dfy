/** The jars against what a module is promised: a plain map in which every name has its own lifetime. */
module JarPlain {
  import opened Wrappers
  import opened JarJson
  import opened Jar
  import opened JarHeader
  import opened Namespaces
  import opened JarRun

  // ---- the plain map -----------------------------------------------------------------------------

  /** A value and the second it dies; with none it lasts the browser session. */
  datatype Value = Value(text: string, dies: Option<int>)

  type Plain = map<string, Value>

  predicate Alive(v: Value, now: int) { v.dies.None? || now < v.dies.value }

  function PlainSet(m: Plain, c: Cookie, now: int): Plain {
    if c.maxAge < 0 then m - {c.name}
    else m[c.name := Value(c.value, if c.maxAge == 0 then None else Some(now + c.maxAge))]
  }

  function PlainSetAll(m: Plain, cookies: seq<Cookie>, now: int): Plain {
    if cookies == [] then m else PlainSet(PlainSetAll(m, cookies[..|cookies| - 1], now), cookies[|cookies| - 1], now)
  }

  /** The names the manifest still declares. */
  function Declared(m: Plain, prefixes: seq<string>): Plain { map n | n in m && OwnedName(n, prefixes) :: m[n] }

  /** The values that outlive the browser session. */
  function Persistent(m: Plain): Plain { map n | n in m && m[n].dies.Some? :: m[n] }

  /** A response forgets what the manifest no longer declares, then sets each cookie in order. */
  function PlainRespond(m: Plain, prefixes: seq<string>, cookies: seq<Cookie>, now: int): Plain {
    PlainSetAll(Declared(m, prefixes), cookies, now)
  }

  /** What the map holds for a name, leaving out names eviction has taken. */
  function PlainLook(m: Plain, lost: set<string>, name: string, now: int): Option<Value> {
    if name in m && name !in lost && Alive(m[name], now) then Some(m[name]) else None
  }

  function AsValue(e: Entry): Value { Value(e.value, if e.exp == 0 then None else Some(e.exp)) }

  function LiveLook(j: Jars, name: string, now: int): Option<Value> {
    match Look(j, name)
    case None => None
    case Some(e) => if LiveEntry(e, now) then Some(AsValue(e)) else None
  }

  /** For one name: only the host can have written what the jars hold, and it is what the map holds. */
  ghost predicate Agrees(j: Jars, m: Plain, lost: set<string>, name: string, now: int) {
    Clean(j, name, now) && LiveLook(j, name, now) == PlainLook(m, lost, name, now)
  }

  // ---- each part of a response keeps the agreement -----------------------------------------------

  /** The two lookups are all there is to it. */
  lemma AgreesByLookups(j: Jars, j': Jars, m: Plain, lost: set<string>, name: string, now: int)
    requires Agrees(j, m, lost, name, now)
    requires Find(j'.session, name) == Find(j.session, name) && Find(j'.kept, name) == Find(j.kept, name)
    ensures Agrees(j', m, lost, name, now)
  {
    LookIsKeptFirst(j, name);
    LookIsKeptFirst(j', name);
  }

  lemma KeepLiveAgrees(j: Jars, m: Plain, lost: set<string>, prefixes: seq<string>, name: string, now: int)
    requires UniqueJars(j) && Agrees(j, m, lost, name, now)
    ensures Agrees(KeepLive(j, prefixes, now), Declared(m, prefixes), lost, name, now)
  {
    LiveLookups(j, prefixes, now, name);
    LookIsKeptFirst(j, name);
    LookIsKeptFirst(KeepLive(j, prefixes, now), name);
    FindNames(j.session, name);
    FindNames(j.kept, name);
    hide KeepLive, UniqueNames, OwnedName, Look, Find;
  }

  lemma FindAdded(s: seq<Entry>, e: Entry, name: string)
    ensures Find(s + [e], name) == if name == e.name then Some(e) else Find(s, name)
  {
    FindAppend(s, [e], name);
  }

  lemma Applied(j: Jars, c: Cookie, now: Clock, name: string)
    requires UniqueJars(j) && c.maxAge <= MAX_COOKIE_AGE
    ensures var r := ApplyToJar(j, c, now);
            if name != c.name then Find(r.session, name) == Find(j.session, name) && Find(r.kept, name) == Find(j.kept, name)
            else && Find(r.session, name) == (if c.maxAge == 0 then Some(Entry(c.name, c.value, 0)) else None)
                 && Find(r.kept, name) == (if c.maxAge > 0 then Some(Entry(c.name, c.value, now + c.maxAge)) else None)
  {
    FindFilter(j.session, NotNamed(c.name), name);
    FindFilter(j.kept, NotNamed(c.name), name);
    FindNames(j.session, name);
    FindNames(j.kept, name);
    var s, k := Filter(j.session, NotNamed(c.name)), Filter(j.kept, NotNamed(c.name));
    hide Find, Filter, UniqueNames;
    FindAdded(s, Entry(c.name, c.value, 0), name);
    if c.maxAge > 0 {
      ExpiryExact(now, c.maxAge);
      FindAdded(k, Entry(c.name, c.value, now + c.maxAge), name);
    }
  }

  lemma PlainSetLook(m: Plain, lost: set<string>, c: Cookie, name: string, now: int)
    ensures PlainLook(PlainSet(m, c, now), lost - {c.name}, name, now)
            == if name != c.name then PlainLook(m, lost, name, now)
               else if c.maxAge < 0 then None
               else Some(Value(c.value, if c.maxAge == 0 then None else Some(now + c.maxAge)))
  {
  }

  lemma ApplyOther(j: Jars, m: Plain, lost: set<string>, c: Cookie, name: string, now: Clock)
    requires UniqueJars(j) && c.maxAge <= MAX_COOKIE_AGE && name != c.name && Agrees(j, m, lost, name, now)
    ensures Agrees(ApplyToJar(j, c, now), PlainSet(m, c, now), lost - {c.name}, name, now)
  {
    Applied(j, c, now, name);
    PlainSetLook(m, lost, c, name, now);
    hide Look, Find, ApplyToJar, UniqueNames, Clean, PlainLook, PlainSet;
    AgreesByLookups(j, ApplyToJar(j, c, now), m, lost, name, now);
  }

  lemma ApplySame(j: Jars, m: Plain, lost: set<string>, c: Cookie, now: Clock)
    requires UniqueJars(j) && c.maxAge <= MAX_COOKIE_AGE
    ensures Agrees(ApplyToJar(j, c, now), PlainSet(m, c, now), lost - {c.name}, c.name, now)
  {
    Applied(j, c, now, c.name);
    PlainSetLook(m, lost, c, c.name, now);
    hide Look, Find, ApplyToJar, UniqueNames, PlainLook, PlainSet;
    LookIsKeptFirst(ApplyToJar(j, c, now), c.name);
  }

  /** A name that is set agrees whatever was there before; any other as it did. */
  lemma ApplyAgrees(j: Jars, m: Plain, lost: set<string>, c: Cookie, name: string, now: Clock)
    requires UniqueJars(j) && c.maxAge <= MAX_COOKIE_AGE && (name == c.name || Agrees(j, m, lost, name, now))
    ensures Agrees(ApplyToJar(j, c, now), PlainSet(m, c, now), lost - {c.name}, name, now)
  {
    hide UniqueJars, Agrees, ApplyToJar, PlainSet;
    if name == c.name { ApplySame(j, m, lost, c, now); } else { ApplyOther(j, m, lost, c, name, now); }
  }

  lemma {:induction false} FoldAgrees(j: Jars, m: Plain, lost: set<string>, cookies: seq<Cookie>, name: string, now: Clock)
    requires UniqueJars(j) && ShortLived(cookies) && (name in CookieNames(cookies) || Agrees(j, m, lost, name, now))
    ensures Agrees(Fold(j, cookies, now), PlainSetAll(m, cookies, now), lost - CookieNames(cookies), name, now)
  {
    hide Agrees, ApplyToJar, PlainSet, UniqueJars;
    if cookies == [] {
      assert CookieNames(cookies) == {};
      assert lost - CookieNames(cookies) == lost;
    } else {
      var init, c := cookies[..|cookies| - 1], cookies[|cookies| - 1];
      CookieNamesLast(cookies);
      FoldUnique(j, init, now);
      if name != c.name { FoldAgrees(j, m, lost, init, name, now); }
      ApplyAgrees(Fold(j, init, now), PlainSetAll(m, init, now), lost - CookieNames(init), c, name, now);
      assert lost - CookieNames(init) - {c.name} == lost - CookieNames(cookies);
    }
  }

  lemma FindSuffix(es: seq<Entry>, d: nat, name: string)
    requires UniqueNames(es) && d <= |es|
    ensures Find(es[d..], name) == if name in Names(es[..d]) then None else Find(es, name)
  {
    FindAppend(es[..d], es[d..], name);
    assert es[..d] + es[d..] == es;
    SuffixUnique(es, d);
    FindNames(es[..d], name);
    FindNames(es[d..], name);
  }

  /** What eviction leaves of one name in one class. */
  lemma EvictedLookup(es: seq<Entry>, name: string)
    requires UniqueNames(es)
    ensures Dropped(es) <= |es| && Find(Evict(es), name) == if name in Names(es[..Dropped(es)]) then None else Find(es, name)
    ensures name in Names(es[..Dropped(es)]) ==> Find(es, name).Some?
  {
    EvictIsLongest(es);
    hide Evict, Dropped, Pack;
    FindSuffix(es, Dropped(es), name);
    if name in Names(es[..Dropped(es)]) { PrefixIsIn(es, Dropped(es), name); }
  }

  lemma EvictAgrees(f: Jars, m: Plain, lost: set<string>, name: string, now: int)
    requires UniqueJars(f) && Agrees(f, m, lost, name, now)
    requires Dropped(f.session) <= |f.session| && Dropped(f.kept) <= |f.kept|
    ensures Agrees(Survivors(f), m, lost + Lost(f), name, now)
  {
    hide Evict, Dropped, Find, UniqueNames, Names, Look;
    EvictedLookup(f.session, name);
    EvictedLookup(f.kept, name);
    LookIsKeptFirst(f, name);
    LookIsKeptFirst(Survivors(f), name);
  }

  lemma PrefixIsIn(es: seq<Entry>, d: nat, name: string)
    requires d <= |es| && name in Names(es[..d])
    ensures Find(es, name).Some?
  {
    FindNames(es, name);
    var i :| 0 <= i < d && es[..d][i].name == name;
    assert es[i].name in Names(es);
  }

  /** Nothing a response just set is among what that response evicts. */
  lemma EvictionTakesOnlyOlder(j: Jars, cookies: seq<Cookie>, now: Clock)
    requires cookies != [] && JarFits(cookies, now)
    ensures var f := Fold(j, cookies, now);
            Dropped(f.session) <= |f.session| && Dropped(f.kept) <= |f.kept| && Lost(f) !! CookieNames(cookies)
  {
    var f := Fold(j, cookies, now);
    var untouched := NotAmong(CookieNames(cookies));
    FoldSplits(j, cookies, now);
    AcceptedReachesBrowser(j, cookies, now);
    PrefixNames(Filter(j.session, untouched), f.session, Dropped(f.session), CookieNames(cookies));
    PrefixNames(Filter(j.kept, untouched), f.kept, Dropped(f.kept), CookieNames(cookies));
    FilterNames(j.session, untouched);
    FilterNames(j.kept, untouched);
  }

  lemma PrefixNames(older: seq<Entry>, all: seq<Entry>, d: nat, names: set<string>)
    requires older <= all && d <= |older|
    ensures (forall e :: e in older ==> e.name !in names) ==> Names(all[..d]) !! names
  {
    assert forall i :: 0 <= i < d ==> all[..d][i] == older[i] && older[i] in older;
  }

  // ---- runs --------------------------------------------------------------------------------------

  datatype World = World(clock: Clock, browser: Browser)

  /** A request: its header, when the browser sent it, and when the host reads the jars off it. */
  datatype Ask = Ask(sent: seq<SentCookie>, asked: Clock, at: Clock)

  datatype Event =
    | Respond(addon: string, prefixes: seq<string>, cookies: seq<Cookie>, ask: Ask)
    | Wait
    | CloseBrowser
    | Foreign

  ghost predicate SameJarCookies(addons: set<string>, b: Browser, b': Browser) {
    forall a, kept :: a in addons ==>
      var n := JarName(a, kept); (n in b <==> n in b') && (n in b ==> b'[n] == b[n])
  }

  function Closed(b: Browser): Browser { map n | n in b && b[n].expires.Some? :: b[n] }

  /** One step.  A response lands: it was made at the host's reading of a request sent earlier, which carried
      anything besides the add-on's own jars; other add-ons' responses may have landed in between.  A foreign step
      is any change to cookies other than those the host wrote for these add-ons. */
  ghost predicate Step(read: Reader, addons: set<string>, w: World, ev: Event, w': World) {
    && w.clock <= w'.clock
    && match ev
       case Respond(a, prefixes, cookies, ask) =>
         && a in addons && ask.asked <= ask.at <= w'.clock
         && IsHeader(ask.sent, w.browser, a, ask.asked) && Accepted(cookies, prefixes, ask.at)
         && w'.browser == StoreAll(w.browser, JarCookies(read, a, ask.sent, prefixes, cookies, ask.at).0, w'.clock)
       case Wait => w'.browser == w.browser
       case CloseBrowser => w'.browser == Closed(w.browser)
       case Foreign => SameJarCookies(addons, w.browser, w'.browser)
  }

  predicate Answers(ev: Event, a: string) { ev.Respond? && ev.addon == a }

  /** Each add-on's responses land in the order the host made them. */
  ghost predicate InOrder(evs: seq<Event>) {
    forall i, k :: 0 <= i < k < |evs| && evs[i].Respond? && Answers(evs[k], evs[i].addon) ==> evs[i].ask.at <= evs[k].ask.at
  }

  /** A run begins in a browser holding none of these add-ons' jars. */
  ghost predicate Run(read: Reader, addons: set<string>, ws: seq<World>, evs: seq<Event>) {
    && |ws| == |evs| + 1 && InOrder(evs)
    && (forall a, kept :: a in addons ==> JarName(a, kept) !in ws[0].browser)
    && (forall i :: 0 <= i < |evs| ==> Step(read, addons, ws[i], evs[i], ws[i + 1]))
  }

  /** What one add-on's responses amount to: the jars last written to it and when, the plain map, the names eviction
      has taken and those a plant has reached since they were last set, and how many entries eviction took. */
  datatype Track = Track(jars: Jars, since: int, plain: Plain, lost: set<string>, touched: set<string>, dropped: nat)

  function Start(): Track { Track(Jars([], []), 0, map[], {}, {}, 0) }

  function Follow(read: Reader, t: Track, a: string, ev: Event): Track {
    match ev
    case Respond(addon, prefixes, cookies, ask) =>
      if addon != a || cookies == [] then t
      else
        var f := Fold(JarsFrom(read, a, ask.sent, prefixes, ask.at), cookies, ask.at);
        EvictIsLongest(f.session);
        EvictIsLongest(f.kept);
        Track(Survivors(f), ask.at, PlainRespond(t.plain, prefixes, cookies, ask.at),
              t.lost - CookieNames(cookies) + Lost(f),
              t.touched + Touched(read, a, ask.sent, prefixes, ask.at, t.jars) - CookieNames(cookies),
              t.dropped + Dropped(f.session) + Dropped(f.kept))
    case CloseBrowser =>
      t.(jars := Jars([], t.jars.kept), plain := Persistent(t.plain))
    case Wait => t
    case Foreign => t
  }

  /** The first `n` events. */
  function TrackAt(read: Reader, a: string, evs: seq<Event>, n: nat): Track
    requires n <= |evs|
  {
    if n == 0 then Start() else Follow(read, TrackAt(read, a, evs, n - 1), a, evs[n - 1])
  }

  /** For every name no plant has reached, the jars hold what the map holds. */
  ghost predicate AllAgree(t: Track, now: int) {
    forall name :: name !in t.touched ==> Agrees(t.jars, t.plain, t.lost, name, now)
  }

  ghost predicate Refines(w: World, a: string, t: Track) {
    && HostWritten(t.jars)
    && Holds(w.browser, a, t.jars, t.since, t.touched)
    && AllAgree(t, t.since)
  }

  lemma AcceptedAreShort(cookies: seq<Cookie>, prefixes: seq<string>, now: Clock)
    requires Accepted(cookies, prefixes, now)
    ensures ShortLived(cookies)
  {
    forall i | 0 <= i < |cookies| ensures cookies[i].maxAge <= MAX_COOKIE_AGE {
      assert CheckCookie(cookies[i], prefixes).None?;
    }
  }

  lemma LaterAgrees(t: Track, now: int, later: int)
    requires AllAgree(t, now) && now <= later
    ensures AllAgree(t, later)
  {
    forall name | name !in t.touched ensures Agrees(t.jars, t.plain, t.lost, name, later) {
      assert Agrees(t.jars, t.plain, t.lost, name, now);
      LookIsKeptFirst(t.jars, name);
      hide Look, Find;
    }
  }

  /** One response moves the jars and the plain map together, whatever its request carried, for every name the
      plants have left alone and for every name it sets. */
  lemma RespondAgrees(read: Reader, a: string, t: Track, prefixes: seq<string>, cookies: seq<Cookie>,
                      sent: seq<SentCookie>, now: Clock, name: string)
    requires HostWritten(t.jars) && AllAgree(t, now) && ShortLived(cookies)
    requires name !in t.touched + Touched(read, a, sent, prefixes, now, t.jars) - CookieNames(cookies)
    ensures var f := Fold(JarsFrom(read, a, sent, prefixes, now), cookies, now);
            Dropped(f.session) <= |f.session| && Dropped(f.kept) <= |f.kept|
            && Agrees(Survivors(f), PlainRespond(t.plain, prefixes, cookies, now),
                      t.lost - CookieNames(cookies) + Lost(f), name, now)
  {
    var r := JarsFrom(read, a, sent, prefixes, now);
    var f := Fold(r, cookies, now);
    FoldedShape(read, a, sent, prefixes, cookies, now);
    FoldedShape(read, a, sent, prefixes, [], now);
    EvictIsLongest(f.session);
    EvictIsLongest(f.kept);
    assert UniqueJars(r) && UniqueJars(f) && UniqueJars(t.jars);
    if name !in CookieNames(cookies) {
      assert Agrees(t.jars, t.plain, t.lost, name, now);
      Untouched(read, a, sent, prefixes, now, t.jars, name);
      hide Agrees, Dropped, Evict, Fold, JarsFrom, Touched, CookieNames, UniqueJars, HostWritten, AllAgree, KeepLive,
           Find, Lost;
      KeepLiveAgrees(t.jars, t.plain, t.lost, prefixes, name, now);
      AgreesByLookups(KeepLive(t.jars, prefixes, now), r, Declared(t.plain, prefixes), t.lost, name, now);
    }
    hide Agrees, Dropped, Evict, Fold, JarsFrom, Touched, CookieNames, UniqueJars, HostWritten, AllAgree, Lost, Declared;
    FoldAgrees(r, Declared(t.plain, prefixes), t.lost, cookies, name, now);
    EvictAgrees(f, PlainSetAll(Declared(t.plain, prefixes), cookies, now), t.lost - CookieNames(cookies), name, now);
  }

  lemma FollowAgrees(read: Reader, a: string, t: Track, prefixes: seq<string>, cookies: seq<Cookie>, ask: Ask)
    requires HostWritten(t.jars) && AllAgree(t, ask.at) && ShortLived(cookies) && cookies != []
    ensures AllAgree(Follow(read, t, a, Respond(a, prefixes, cookies, ask)), ask.at)
  {
    var t' := Follow(read, t, a, Respond(a, prefixes, cookies, ask));
    forall name | name !in t'.touched ensures Agrees(t'.jars, t'.plain, t'.lost, name, ask.at) {
      RespondAgrees(read, a, t, prefixes, cookies, ask.sent, ask.at, name);
      hide Agrees, Dropped, Fold, JarsFrom, Touched, CookieNames, Survivors, Lost, PlainRespond, HostWritten, AllAgree;
    }
  }

  lemma AgreesAreClean(t: Track, now: int)
    requires AllAgree(t, now)
    ensures forall name :: name !in t.touched ==> Clean(t.jars, name, now)
  {
    forall name | name !in t.touched ensures Clean(t.jars, name, now) {
      assert Agrees(t.jars, t.plain, t.lost, name, now);
    }
  }

  lemma OwnResponse(read: Reader, w: World, a: string, t: Track, prefixes: seq<string>, cookies: seq<Cookie>, ask: Ask,
                    lands: Clock)
    requires Refines(w, a, t) && cookies != [] && t.since <= ask.at && ask.asked <= ask.at <= lands
    requires IsHeader(ask.sent, w.browser, a, ask.asked) && Accepted(cookies, prefixes, ask.at)
    ensures var out := JarCookies(read, a, ask.sent, prefixes, cookies, ask.at);
            Refines(World(lands, StoreAll(w.browser, out.0, lands)), a, Follow(read, t, a, Respond(a, prefixes, cookies, ask)))
  {
    AcceptedAreShort(cookies, prefixes, ask.at);
    LaterAgrees(t, t.since, ask.at);
    FollowAgrees(read, a, t, prefixes, cookies, ask);
    var t' := Follow(read, t, a, Respond(a, prefixes, cookies, ask));
    AgreesAreClean(t', ask.at);
    hide AllAgree, Clean, Holds, HostWritten, Fold, Survivors, Lost, CookieNames, PlainRespond, StoreAll, JarCookies, Dropped,
         IsHeader, Accepted, JarsFrom, Touched;
    ResponseHolds(read, w.browser, a, ask.sent, prefixes, cookies, t.since, ask.asked, ask.at, lands, t.jars, t.touched,
                  t'.touched);
  }

  /** A response writes only under its own add-on's two jar names. */
  lemma OtherResponse(read: Reader, b: Browser, a: string, t: Track, other: string, prefixes: seq<string>,
                      cookies: seq<Cookie>, ask: Ask, lands: Clock)
    requires a != other && !Related(a, other) && Holds(b, a, t.jars, t.since, t.touched)
    ensures var out := JarCookies(read, other, ask.sent, prefixes, cookies, ask.at);
            Holds(StoreAll(b, out.0, lands), a, t.jars, t.since, t.touched)
  {
    var out := JarCookies(read, other, ask.sent, prefixes, cookies, ask.at).0;
    AtMostTwoCookies(read, other, ask.sent, prefixes, cookies, ask.at);
    JarNamesDistinct(a, other, false, false);
    JarNamesDistinct(a, other, false, true);
    JarNamesDistinct(a, other, true, false);
    JarNamesDistinct(a, other, true, true);
    StoreOthers(b, out, lands, JarName(a, false));
    StoreOthers(b, out, lands, JarName(a, true));
  }

  lemma ClosingAgrees(j: Jars, m: Plain, lost: set<string>, name: string, now: int)
    requires Agrees(j, m, lost, name, now)
    ensures Agrees(Jars([], j.kept), Persistent(m), lost, name, now)
  {
    LookIsKeptFirst(j, name);
    LookIsKeptFirst(Jars([], j.kept), name);
    assert Find([], name) == None;
    hide Look, Find;
  }

  lemma ClosingHolds(b: Browser, a: string, j: Jars, since: int, touched: set<string>)
    requires HostWritten(j) && Holds(b, a, j, since, touched)
    ensures HostWritten(Jars([], j.kept)) && Holds(Closed(b), a, Jars([], j.kept), since, touched)
  {
    hide JarName, Pack;
  }

  lemma Closing(read: Reader, w: World, w': World, a: string, t: Track)
    requires Refines(w, a, t) && w'.browser == Closed(w.browser)
    ensures Refines(w', a, Follow(read, t, a, CloseBrowser))
  {
    var t' := Follow(read, t, a, CloseBrowser);
    forall name | name !in t'.touched ensures Agrees(t'.jars, t'.plain, t'.lost, name, t.since) {
      assert Agrees(t.jars, t.plain, t.lost, name, t.since);
      ClosingAgrees(t.jars, t.plain, t.lost, name, t.since);
    }
    ClosingHolds(w.browser, a, t.jars, t.since, t.touched);
  }

  lemma Starting(w: World, a: string)
    requires JarName(a, false) !in w.browser && JarName(a, true) !in w.browser
    ensures Refines(w, a, Start())
  {
    assert Jars([], []).session + Jars([], []).kept == [];
    assert forall name :: Agrees(Jars([], []), map[], {}, name, 0);
  }

  lemma WaitKeeps(read: Reader, addons: set<string>, w: World, ev: Event, w': World, a: string, t: Track)
    requires a in addons && Refines(w, a, t) && Step(read, addons, w, ev, w') && (ev.Wait? || ev.Foreign?)
    ensures Refines(w', a, t)
  {
    hide AllAgree, Pack, JarName, HostWritten;
    if ev.Foreign? {
      var s, k := JarName(a, false), JarName(a, true);
      assert (s in w.browser <==> s in w'.browser) && (k in w.browser <==> k in w'.browser);
    }
  }

  lemma OthersKeep(read: Reader, addons: set<string>, w: World, ev: Event, w': World, a: string, t: Track)
    requires Unrefused(addons) && a in addons && Refines(w, a, t) && Step(read, addons, w, ev, w')
    requires ev.Respond? && ev.addon != a
    ensures Refines(w', a, t)
  {
    hide AllAgree, Holds, HostWritten, JarCookies, StoreAll, IsHeader, Accepted;
    OtherResponse(read, w.browser, a, t, ev.addon, ev.prefixes, ev.cookies, ev.ask, w'.clock);
  }

  lemma OwnKeeps(read: Reader, addons: set<string>, w: World, ev: Event, w': World, a: string, t: Track)
    requires Refines(w, a, t) && Step(read, addons, w, ev, w') && Answers(ev, a) && t.since <= ev.ask.at
    ensures Refines(w', a, Follow(read, t, a, ev))
  {
    hide AllAgree, HostWritten, StoreAll, IsHeader, Accepted, Holds;
    if ev.cookies != [] {
      hide JarCookies;
      OwnResponse(read, w, a, t, ev.prefixes, ev.cookies, ev.ask, w'.clock);
    } else {
      NothingWritten(w.browser, w'.clock);
    }
  }

  lemma NothingWritten(b: Browser, lands: Clock)
    ensures StoreAll(b, [], lands) == b
  {
  }

  lemma StepRefines(read: Reader, addons: set<string>, w: World, ev: Event, w': World, a: string, t: Track)
    requires Unrefused(addons) && a in addons && (Answers(ev, a) ==> t.since <= ev.ask.at)
    requires Refines(w, a, t) && Step(read, addons, w, ev, w')
    ensures Refines(w', a, Follow(read, t, a, ev))
  {
    assert Unrefused(addons) && Refines(w, a, t) && Step(read, addons, w, ev, w');
    hide Unrefused, Refines;
    match ev
    case Respond(b, _, _, _) =>
      if b == a { OwnKeeps(read, addons, w, ev, w', a, t); } else { OthersKeep(read, addons, w, ev, w', a, t); }
    case CloseBrowser => Closing(read, w, w', a, t);
    case _ => WaitKeeps(read, addons, w, ev, w', a, t);
  }

  /** When the first `n` events hold none but earlier responses of the add-on. */
  ghost predicate NotBefore(evs: seq<Event>, a: string, n: nat, clock: int)
    requires n <= |evs|
  {
    forall i :: 0 <= i < n && Answers(evs[i], a) ==> evs[i].ask.at <= clock
  }

  lemma {:induction false} SinceIsLast(read: Reader, a: string, evs: seq<Event>, n: nat, clock: int)
    requires n <= |evs| && NotBefore(evs, a, n, clock) && clock >= 0
    ensures TrackAt(read, a, evs, n).since <= clock
  {
    if n > 0 {
      hide Touched, Fold, JarsFrom, Survivors, Lost, Dropped, PlainRespond, CookieNames;
      SinceIsLast(read, a, evs, n - 1, clock);
    }
  }

  lemma RunStep(read: Reader, addons: set<string>, ws: seq<World>, evs: seq<Event>, i: nat)
    requires Run(read, addons, ws, evs) && i < |evs|
    ensures Step(read, addons, ws[i], evs[i], ws[i + 1])
    ensures evs[i].Respond? ==> NotBefore(evs, evs[i].addon, i, evs[i].ask.at)
  {
    hide Step;
  }

  /** Every run refines the plain map, for every add-on in the browser at once, whatever the requests carried
      besides the add-on's own jars and however the add-ons' requests overlap. */
  lemma {:induction false} RunRefines(read: Reader, addons: set<string>, ws: seq<World>, evs: seq<Event>, a: string, n: nat)
    requires Unrefused(addons) && a in addons && Run(read, addons, ws, evs) && n <= |evs|
    ensures Refines(ws[n], a, TrackAt(read, a, evs, n))
  {
    hide Refines, Step, Follow, Unrefused, JarName, InOrder;
    if n == 0 {
      Starting(ws[0], a);
    } else {
      var before := TrackAt(read, a, evs, n - 1);
      RunRefines(read, addons, ws, evs, a, n - 1);
      RunStep(read, addons, ws, evs, n - 1);
      hide Run;
      if Answers(evs[n - 1], a) { SinceIsLast(read, a, evs, n - 1, evs[n - 1].ask.at); }
      StepRefines(read, addons, ws[n - 1], evs[n - 1], ws[n], a, before);
    }
  }
}
