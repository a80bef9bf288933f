/** What a module can rely on, over every run and whatever a visitor plants: its reads are the plain map's, what
    eviction and plants can do is exactly bounded, and no other add-on has a say. */
module JarLaws {
  import opened Wrappers
  import opened JarJson
  import opened Jar
  import opened JarHeader
  import opened Namespaces
  import opened JarRun
  import opened JarPlain

  // ---- the request record ------------------------------------------------------------------------

  /** Cookies of the raw header under a declared prefix; a later one of a name replaces an earlier one. */
  function RawCookies(sent: seq<SentCookie>, prefixes: seq<string>): map<string, string> {
    if sent == [] then map[]
    else
      var rest := RawCookies(sent[..|sent| - 1], prefixes);
      var c := sent[|sent| - 1];
      if OwnedName(c.name, prefixes) then rest[c.name := c.value] else rest
  }

  function Overlay(m: map<string, string>, es: seq<Entry>): map<string, string> {
    if es == [] then m else Overlay(m, es[..|es| - 1])[es[|es| - 1].name := es[|es| - 1].value]
  }

  /** The cookies of the record a guest is handed: the raw ones, outranked by the jars. */
  function Record(read: Reader, addon: string, sent: seq<SentCookie>, prefixes: seq<string>, now: int): map<string, string> {
    var j := JarsFrom(read, addon, sent, prefixes, now);
    Overlay(RawCookies(sent, prefixes), j.session + j.kept)
  }

  /** The last value a header carries under a name. */
  function SentValue(sent: seq<SentCookie>, name: string): Option<string> {
    if sent == [] then None
    else if sent[|sent| - 1].name == name then Some(sent[|sent| - 1].value)
    else SentValue(sent[..|sent| - 1], name)
  }

  function At(m: map<string, string>, name: string): Option<string> { if name in m then Some(m[name]) else None }

  lemma {:induction false} RawCookieValue(sent: seq<SentCookie>, prefixes: seq<string>, name: string)
    ensures At(RawCookies(sent, prefixes), name) == if OwnedName(name, prefixes) then SentValue(sent, name) else None
  {
    if sent != [] { RawCookieValue(sent[..|sent| - 1], prefixes, name); }
  }

  lemma {:induction false} OverlayValue(m: map<string, string>, es: seq<Entry>, name: string)
    ensures At(Overlay(m, es), name) == match Find(es, name) case Some(e) => Some(e.value) case None => At(m, name)
  {
    if es != [] { OverlayValue(m, es[..|es| - 1], name); }
  }

  /** A cookie prefix a manifest may declare: inside the add-on's namespace and out of the host's. */
  predicate ValidPrefix(prefix: string, addon: string) {
    InNamespace(prefix, addon) && !("linkctrl" <= prefix) && !(prefix <= "linkctrl")
  }

  /** No declared prefix reaches any jar, the add-on's own or another's, through the raw header. */
  lemma JarsAreOutOfReach(prefixes: seq<string>, addon: string, other: string, kept: bool)
    requires forall i :: 0 <= i < |prefixes| ==> ValidPrefix(prefixes[i], addon)
    ensures !OwnedName(JarName(other, kept), prefixes)
  {
    var n := JarName(other, kept);
    forall i | 0 <= i < |prefixes| ensures !(prefixes[i] <= n) {
      assert "linkctrl" <= n;
      if prefixes[i] <= n && |prefixes[i]| <= |"linkctrl"| {
        PrefixOrder(prefixes[i], "linkctrl", n);
      } else if prefixes[i] <= n {
        PrefixOrder("linkctrl", prefixes[i], n);
      }
    }
  }

  /** Unrelated add-ons never own one cookie name between them. */
  lemma NoSharedCookie(name: string, a: string, pa: seq<string>, b: string, pb: seq<string>)
    requires a != b && !Related(a, b)
    requires forall i :: 0 <= i < |pa| ==> ValidPrefix(pa[i], a)
    requires forall i :: 0 <= i < |pb| ==> ValidPrefix(pb[i], b)
    ensures !(OwnedName(name, pa) && OwnedName(name, pb))
  {
    if OwnedName(name, pa) && OwnedName(name, pb) {
      var i :| 0 <= i < |pa| && pa[i] <= name;
      var k :| 0 <= k < |pb| && pb[k] <= name;
      assert InNamespace(name, a) && InNamespace(name, b);
      RelatedIffShared(a, b);
    }
  }

  // ---- reads over a run --------------------------------------------------------------------------

  /** What a read should give by the plain map: nothing outside the declared prefixes. */
  function PlainRead(m: Plain, lost: set<string>, prefixes: seq<string>, name: string, now: int): Option<string> {
    if !OwnedName(name, prefixes) then None
    else match PlainLook(m, lost, name, now) case Some(v) => Some(v.text) case None => None
  }

  lemma UntouchedRead(read: Reader, w: World, a: string, t: Track, ask: Ask, prefixes: seq<string>, name: string)
    requires Refines(w, a, t) && t.since <= ask.at
    requires name !in t.touched && name !in Touched(read, a, ask.sent, prefixes, ask.at, t.jars)
    ensures JarRead(read, a, ask.sent, prefixes, ask.at, name) == PlainRead(t.plain, t.lost, prefixes, name, ask.at)
  {
    var got := JarsFrom(read, a, ask.sent, prefixes, ask.at);
    LaterAgrees(t, t.since, ask.at);
    assert Agrees(t.jars, t.plain, t.lost, name, ask.at);
    Untouched(read, a, ask.sent, prefixes, ask.at, t.jars, name);
    LiveLookups(t.jars, prefixes, ask.at, name);
    LookIsKeptFirst(t.jars, name);
    LookIsKeptFirst(got, name);
    FindNames(t.jars.session, name);
    FindNames(t.jars.kept, name);
    hide JarsFrom, KeepLive, Touched, Find, Look, HostWritten, Holds, OwnedName, AllAgree;
  }

  /** Whether a plant has reached a name by the end of a run, in the reading request or before it. */
  predicate Reached(read: Reader, evs: seq<Event>, a: string, ask: Ask, prefixes: seq<string>, name: string) {
    var t := TrackAt(read, a, evs, |evs|);
    name in t.touched || name in Touched(read, a, ask.sent, prefixes, ask.at, t.jars)
  }

  /** After any run, with any header and any declared prefixes, each jar read is exactly the plain map's live
      value, except for a name eviction has taken, which reads as absent, and a name a plant has reached. */
  lemma EveryReadIsThePlainMaps(read: Reader, addons: set<string>, ws: seq<World>, evs: seq<Event>, a: string,
                                ask: Ask, prefixes: seq<string>, name: string)
    requires Unrefused(addons) && a in addons && Run(read, addons, ws, evs)
    requires NotBefore(evs, a, |evs|, ask.at) && !Reached(read, evs, a, ask, prefixes, name)
    ensures var t := TrackAt(read, a, evs, |evs|);
            JarRead(read, a, ask.sent, prefixes, ask.at, name) == PlainRead(t.plain, t.lost, prefixes, name, ask.at)
  {
    var t := TrackAt(read, a, evs, |evs|);
    assert name !in t.touched && name !in Touched(read, a, ask.sent, prefixes, ask.at, t.jars);
    hide Refines, Unrefused, TrackAt, JarRead, PlainRead, Touched, NotBefore, Reached;
    RunRefines(read, addons, ws, evs, a, |evs|);
    SinceIsLast(read, a, evs, |evs|, ask.at);
    hide Run;
    UntouchedRead(read, ws[|evs|], a, t, ask, prefixes, name);
  }

  // ---- what a plant can change ---------------------------------------------------------------------

  /** What the planted jars of a class would have a name read as. */
  function Rival(read: Reader, b: Browser, a: string, kept: bool, ask: Ask, prefixes: seq<string>,
                 name: string): Option<Entry>
    requires OwnValue(b, JarName(a, kept), ask.asked) <= Values(ask.sent, JarName(a, kept))
  {
    Readable(Carried(read, Planted(ask.sent, b, ask.asked, JarName(a, kept)), name), prefixes, ask.at)
  }

  /** When a read of a header with the host's jars first is the plain map's: a live value is outranked only by a
      planted kept jar, and only while the host's own kept jar does not carry the name; an absent one stays
      absent unless a planted jar carries the name where the host's jar of that class does not. */
  predicate PlantsAgree(read: Reader, b: Browser, a: string, t: Track, ask: Ask, prefixes: seq<string>, name: string)
    requires OwnValue(b, JarName(a, false), ask.asked) <= Values(ask.sent, JarName(a, false))
    requires OwnValue(b, JarName(a, true), ask.asked) <= Values(ask.sent, JarName(a, true))
  {
    var own := InBrowser(b, a, t.jars, ask.asked);
    var s, k := Rival(read, b, a, false, ask, prefixes, name), Rival(read, b, a, true, ask, prefixes, name);
    match PlainRead(t.plain, t.lost, prefixes, name, ask.at)
    case Some(value) => Find(own.kept, name).Some? || k.None? || k.value.value == value
    case None => (Find(own.session, name).Some? || s.None?) && (Find(own.kept, name).Some? || k.None?)
  }

  /** Of an untouched name, the map's value is what the host's jars the browser sent would read as. */
  lemma PlainIsOwnJars(w: World, a: string, t: Track, ask: Ask, prefixes: seq<string>, name: string)
    requires Refines(w, a, t) && name !in t.touched && t.since <= ask.asked <= ask.at
    ensures var own := InBrowser(w.browser, a, t.jars, ask.asked);
            PlainRead(t.plain, t.lost, prefixes, name, ask.at)
            == ValueOf(Or(Readable(Find(own.kept, name), prefixes, ask.at),
                          Readable(Find(own.session, name), prefixes, ask.at)))
  {
    LaterAgrees(t, t.since, ask.at);
    assert Agrees(t.jars, t.plain, t.lost, name, ask.at);
    DroppedIsDead(w.browser, a, t.jars, prefixes, t.since, ask.asked, ask.at, t.touched, name);
    LookIsKeptFirst(t.jars, name);
    FindNames(t.jars.session, name);
    FindNames(t.jars.kept, name);
    hide Find, Look, HostWritten, Holds, OwnedName, AllAgree, OwnValue, JarName;
  }

  /** The four ways two classes of own and planted entries can fall out. */
  lemma RivalsDecide(os: Option<Entry>, ok: Option<Entry>, ps: Option<Entry>, pk: Option<Entry>,
                     prefixes: seq<string>, now: int)
    ensures var own := ValueOf(Or(Readable(ok, prefixes, now), Readable(os, prefixes, now)));
            var got := ValueOf(Or(Readable(Or(ok, pk), prefixes, now), Readable(Or(os, ps), prefixes, now)));
            var s, k := Readable(ps, prefixes, now), Readable(pk, prefixes, now);
            got == own <==> match own
                            case Some(value) => ok.Some? || k.None? || k.value.value == value
                            case None => (os.Some? || s.None?) && (ok.Some? || k.None?)
  {
    hide OwnedName;
  }

  lemma PlantedRead(read: Reader, w: World, a: string, t: Track, ask: Ask, prefixes: seq<string>, name: string)
    requires Inverts(read) && Refines(w, a, t) && name !in t.touched && t.since <= ask.asked <= ask.at
    requires HostFirst(ask.sent, w.browser, ask.asked, a)
    ensures OwnValue(w.browser, JarName(a, false), ask.asked) <= Values(ask.sent, JarName(a, false))
    ensures OwnValue(w.browser, JarName(a, true), ask.asked) <= Values(ask.sent, JarName(a, true))
    ensures JarRead(read, a, ask.sent, prefixes, ask.at, name) == PlainRead(t.plain, t.lost, prefixes, name, ask.at)
            <==> PlantsAgree(read, w.browser, a, t, ask, prefixes, name)
  {
    var own, got := InBrowser(w.browser, a, t.jars, ask.asked), JarsFrom(read, a, ask.sent, prefixes, ask.at);
    HeaderLookups(read, w.browser, a, t.jars, ask.sent, prefixes, t.since, ask.asked, ask.at, t.touched, name);
    hide JarsFrom, Find, Look, Carried, Planted, Values, OwnValue, JarName, Inverts, HostFirst, Readable, Refines,
         InBrowser, PlainRead, Or;
    LookIsKeptFirst(got, name);
    PlainIsOwnJars(w, a, t, ask, prefixes, name);
    RivalsDecide(Find(own.session, name), Find(own.kept, name),
                 Carried(read, Planted(ask.sent, w.browser, ask.asked, JarName(a, false)), name),
                 Carried(read, Planted(ask.sent, w.browser, ask.asked, JarName(a, true)), name), prefixes, ask.at);
    OrFirst(Find(got.kept, name), Find(got.session, name));
  }

  lemma OrFirst(first: Option<Entry>, second: Option<Entry>)
    ensures Or(first, second) == if first.Some? then first else second
  {
  }

  /** A request sent once the add-on's responses so far were made, carrying the host's jars first. */
  ghost predicate AsksFirst(b: Browser, evs: seq<Event>, a: string, n: nat, ask: Ask)
    requires n <= |evs|
  {
    NotBefore(evs, a, n, ask.asked) && ask.asked <= ask.at && HostFirst(ask.sent, b, ask.asked, a)
  }

  /** Over any run with anything planted, a name no plant has reached since it was last set reads, from a header
      with the host's jars first, as the plain map says if and only if the plants in that header agree. */
  lemma PlantedReads(read: Reader, addons: set<string>, ws: seq<World>, evs: seq<Event>, a: string,
                     ask: Ask, prefixes: seq<string>, name: string)
    requires Inverts(read) && Unrefused(addons) && a in addons && Run(read, addons, ws, evs)
    requires AsksFirst(ws[|evs|].browser, evs, a, |evs|, ask) && name !in TrackAt(read, a, evs, |evs|).touched
    ensures var t, b := TrackAt(read, a, evs, |evs|), ws[|evs|].browser;
            && OwnValue(b, JarName(a, false), ask.asked) <= Values(ask.sent, JarName(a, false))
            && OwnValue(b, JarName(a, true), ask.asked) <= Values(ask.sent, JarName(a, true))
            && (JarRead(read, a, ask.sent, prefixes, ask.at, name) == PlainRead(t.plain, t.lost, prefixes, name, ask.at)
                <==> PlantsAgree(read, b, a, t, ask, prefixes, name))
  {
    hide Refines, Unrefused, TrackAt, JarRead, PlainRead, HostFirst, PlantsAgree, Inverts, JarName, Values, OwnValue,
         NotBefore;
    RunRefines(read, addons, ws, evs, a, |evs|);
    SinceIsLast(read, a, evs, |evs|, ask.asked);
    hide Run;
    PlantedRead(read, ws[|evs|], a, TrackAt(read, a, evs, |evs|), ask, prefixes, name);
  }

  lemma {:induction false} FoldLookups(j: Jars, cookies: seq<Cookie>, now: Clock, name: string)
    requires UniqueJars(j) && ShortLived(cookies)
    ensures var f := Fold(j, cookies, now);
            if name in CookieNames(cookies) then Find(f.session, name).None? || Find(f.kept, name).None?
            else Find(f.session, name) == Find(j.session, name) && Find(f.kept, name) == Find(j.kept, name)
  {
    if cookies != [] {
      var init, c := cookies[..|cookies| - 1], cookies[|cookies| - 1];
      CookieNamesLast(cookies);
      FoldUnique(j, init, now);
      hide Find, ApplyToJar, UniqueJars, CookieNames;
      FoldLookups(j, init, now, name);
      Applied(Fold(j, init, now), c, now, name);
    }
  }

  /** What the host writes holds a name in both classes exactly when the request it answered did, and the response
      neither set the name nor evicted it: disjoint jars stay disjoint until a plant crosses them, and the next
      cookie of the name mends it. */
  lemma CrossedExactly(read: Reader, addon: string, sent: seq<SentCookie>, prefixes: seq<string>, cookies: seq<Cookie>,
                       now: Clock, name: string)
    requires ShortLived(cookies)
    ensures var r := JarsFrom(read, addon, sent, prefixes, now);
            var f := Fold(r, cookies, now);
            Dropped(f.session) <= |f.session| && Dropped(f.kept) <= |f.kept| &&
            (Find(Survivors(f).session, name).Some? && Find(Survivors(f).kept, name).Some?
             <==> Find(r.session, name).Some? && Find(r.kept, name).Some? && name !in CookieNames(cookies) && name !in Lost(f))
  {
    var r := JarsFrom(read, addon, sent, prefixes, now);
    var f := Fold(r, cookies, now);
    FoldedShape(read, addon, sent, prefixes, cookies, now);
    JarsCarry(read, addon, sent, prefixes, now, name);
    hide Fold, JarsFrom, Find, Evict, Dropped, Names, CookieNames, UniqueNames, Carried;
    FoldLookups(r, cookies, now, name);
    EvictedLookup(f.session, name);
    EvictedLookup(f.kept, name);
  }

  /** A request sent once the add-on's responses so far were made, with nothing planted for it. */
  ghost predicate AsksAlone(b: Browser, evs: seq<Event>, a: string, n: nat, ask: Ask)
    requires n <= |evs|
  {
    NotBefore(evs, a, n, ask.asked) && ask.asked <= ask.at && Unplanted(ask.sent, b, ask.asked, a)
  }

  /** The first `n` events hold no response of this add-on to any other kind of request. */
  ghost predicate NonePlanted(ws: seq<World>, evs: seq<Event>, a: string, n: nat)
    requires n <= |evs| && |ws| == |evs| + 1
  {
    forall i :: 0 <= i < n && Answers(evs[i], a) ==> AsksAlone(ws[i].browser, evs, a, i, evs[i].ask)
  }

  lemma NothingTouched(read: Reader, w: World, a: string, t: Track, ask: Ask, prefixes: seq<string>)
    requires Inverts(read) && Refines(w, a, t) && t.touched == {} && Unplanted(ask.sent, w.browser, ask.asked, a)
    requires t.since <= ask.asked <= ask.at
    ensures Touched(read, a, ask.sent, prefixes, ask.at, t.jars) == {}
  {
    LaterAgrees(t, t.since, ask.at);
    AgreesAreClean(t, ask.at);
    hide Touched, Holds, HostWritten, Inverts, AllAgree, Unplanted, Clean;
    forall name ensures name !in Touched(read, a, ask.sent, prefixes, ask.at, t.jars) {
      UnplantedTouchesNothing(read, w.browser, a, t.jars, ask.sent, prefixes, t.since, ask.asked, ask.at, {}, name);
    }
  }

  lemma StaysUntouched(read: Reader, w: World, a: string, t: Track, ev: Event)
    requires Inverts(read) && Refines(w, a, t) && t.touched == {}
    requires Answers(ev, a) ==> t.since <= ev.ask.asked <= ev.ask.at && Unplanted(ev.ask.sent, w.browser, ev.ask.asked, a)
    ensures Follow(read, t, a, ev).touched == {}
  {
    if Answers(ev, a) { NothingTouched(read, w, a, t, ev.ask, ev.prefixes); }
    hide Inverts, Refines, Unplanted, Touched, Fold, JarsFrom, Survivors, Lost, Dropped, PlainRespond, CookieNames;
  }

  lemma TrackNext(read: Reader, a: string, evs: seq<Event>, n: nat)
    requires 0 < n <= |evs|
    ensures TrackAt(read, a, evs, n) == Follow(read, TrackAt(read, a, evs, n - 1), a, evs[n - 1])
  {
  }

  lemma RunLength(read: Reader, addons: set<string>, ws: seq<World>, evs: seq<Event>)
    requires Run(read, addons, ws, evs)
    ensures |ws| == |evs| + 1
  {
  }

  lemma NonePlantedAt(read: Reader, ws: seq<World>, evs: seq<Event>, a: string, n: nat)
    requires 0 < n <= |evs| && |ws| == |evs| + 1 && NonePlanted(ws, evs, a, n)
    ensures NonePlanted(ws, evs, a, n - 1)
    ensures Answers(evs[n - 1], a) ==> var ask := evs[n - 1].ask;
            TrackAt(read, a, evs, n - 1).since <= ask.asked <= ask.at && Unplanted(ask.sent, ws[n - 1].browser, ask.asked, a)
  {
    hide Unplanted, TrackAt, NotBefore;
    if Answers(evs[n - 1], a) {
      assert AsksAlone(ws[n - 1].browser, evs, a, n - 1, evs[n - 1].ask);
      SinceIsLast(read, a, evs, n - 1, evs[n - 1].ask.asked);
    }
  }

  lemma {:induction false} NeverTouched(read: Reader, addons: set<string>, ws: seq<World>, evs: seq<Event>, a: string, n: nat)
    requires Inverts(read) && Unrefused(addons) && a in addons && Run(read, addons, ws, evs) && n <= |evs|
    requires NonePlanted(ws, evs, a, n)
    ensures TrackAt(read, a, evs, n).touched == {}
  {
    if n > 0 {
      hide Run, Inverts, Unrefused, Refines, Follow, Unplanted, NonePlanted, TrackAt;
      TrackNext(read, a, evs, n);
      RunLength(read, addons, ws, evs);
      NonePlantedAt(read, ws, evs, a, n);
      NeverTouched(read, addons, ws, evs, a, n - 1);
      RunRefines(read, addons, ws, evs, a, n - 1);
      StaysUntouched(read, ws[n - 1], a, TrackAt(read, a, evs, n - 1), evs[n - 1]);
    }
  }

  /** With nothing planted for the add-on, every name reads as the plain map says; what is planted for others
      makes no difference. */
  lemma UnplantedReads(read: Reader, addons: set<string>, ws: seq<World>, evs: seq<Event>, a: string,
                       ask: Ask, prefixes: seq<string>, name: string)
    requires Inverts(read) && Unrefused(addons) && a in addons && Run(read, addons, ws, evs)
    requires NonePlanted(ws, evs, a, |evs|) && AsksAlone(ws[|evs|].browser, evs, a, |evs|, ask)
    ensures var t := TrackAt(read, a, evs, |evs|);
            JarRead(read, a, ask.sent, prefixes, ask.at, name) == PlainRead(t.plain, t.lost, prefixes, name, ask.at)
  {
    var t := TrackAt(read, a, evs, |evs|);
    hide Refines, Unrefused, TrackAt, JarRead, PlainRead, Touched, Inverts, Unplanted, NonePlanted, NotBefore;
    RunRefines(read, addons, ws, evs, a, |evs|);
    NeverTouched(read, addons, ws, evs, a, |evs|);
    SinceIsLast(read, a, evs, |evs|, ask.asked);
    hide Run;
    NothingTouched(read, ws[|evs|], a, t, ask, prefixes);
    UntouchedRead(read, ws[|evs|], a, t, ask, prefixes, name);
  }

  /** The record the guest is handed: the jar's value where it has one, the raw owned cookie otherwise. */
  lemma RecordIsJarThenRaw(read: Reader, a: string, sent: seq<SentCookie>, prefixes: seq<string>, now: int, name: string)
    ensures At(Record(read, a, sent, prefixes, now), name)
            == match JarRead(read, a, sent, prefixes, now, name)
               case Some(v) => Some(v)
               case None => if OwnedName(name, prefixes) then SentValue(sent, name) else None
  {
    var j := JarsFrom(read, a, sent, prefixes, now);
    OverlayValue(RawCookies(sent, prefixes), j.session + j.kept, name);
    RawCookieValue(sent, prefixes, name);
  }

  /** So what a request's record holds after any run is the plain map's value where it has one, and the raw owned
      cookie where the value has died, was deleted or was evicted. */
  lemma RecordAfterRun(read: Reader, addons: set<string>, ws: seq<World>, evs: seq<Event>, a: string,
                       ask: Ask, prefixes: seq<string>, name: string)
    requires Unrefused(addons) && a in addons && Run(read, addons, ws, evs)
    requires NotBefore(evs, a, |evs|, ask.at) && !Reached(read, evs, a, ask, prefixes, name)
    ensures var t := TrackAt(read, a, evs, |evs|);
            At(Record(read, a, ask.sent, prefixes, ask.at), name)
            == match PlainRead(t.plain, t.lost, prefixes, name, ask.at)
               case Some(v) => Some(v)
               case None => if OwnedName(name, prefixes) then SentValue(ask.sent, name) else None
  {
    hide Reached, JarRead, PlainRead, Record, TrackAt, OwnedName, NotBefore;
    EveryReadIsThePlainMaps(read, addons, ws, evs, a, ask, prefixes, name);
    hide Run, Unrefused;
    RecordIsJarThenRaw(read, a, ask.sent, prefixes, ask.at, name);
  }

  /** Agreement with the map that loses nothing fails exactly at a live declared name that was evicted. */
  lemma ExactlyTheEvicted(m: Plain, lost: set<string>, prefixes: seq<string>, name: string, now: int)
    ensures PlainRead(m, lost, prefixes, name, now) == PlainRead(m, {}, prefixes, name, now)
            <==> !(name in lost && name in m && Alive(m[name], now) && OwnedName(name, prefixes))
    ensures PlainRead(m, lost, prefixes, name, now).Some?
            ==> PlainRead(m, lost, prefixes, name, now) == PlainRead(m, {}, prefixes, name, now)
  {}

  /** So after any run with nothing planted for the add-on, a read is what a map that loses nothing gives, unless
      eviction has taken the name while its value lives and is declared; and then it is absent, never stale. */
  lemma EvictedReads(read: Reader, addons: set<string>, ws: seq<World>, evs: seq<Event>, a: string,
                     ask: Ask, prefixes: seq<string>, name: string)
    requires Inverts(read) && Unrefused(addons) && a in addons && Run(read, addons, ws, evs)
    requires NonePlanted(ws, evs, a, |evs|) && AsksAlone(ws[|evs|].browser, evs, a, |evs|, ask)
    ensures var t, got := TrackAt(read, a, evs, |evs|), JarRead(read, a, ask.sent, prefixes, ask.at, name);
            && (got == PlainRead(t.plain, {}, prefixes, name, ask.at)
                <==> !(name in t.lost && name in t.plain && Alive(t.plain[name], ask.at) && OwnedName(name, prefixes)))
            && (got == PlainRead(t.plain, {}, prefixes, name, ask.at) || got == None)
  {
    var t := TrackAt(read, a, evs, |evs|);
    UnplantedReads(read, addons, ws, evs, a, ask, prefixes, name);
    ExactlyTheEvicted(t.plain, t.lost, prefixes, name, ask.at);
    hide Run, Unrefused, TrackAt, JarRead, PlainRead, Inverts, NonePlanted, AsksAlone;
  }

  /** Until eviction drops an entry, no name is lost. */
  lemma {:induction false} NothingDropped(read: Reader, a: string, evs: seq<Event>, n: nat)
    requires n <= |evs| && TrackAt(read, a, evs, n).dropped == 0
    ensures TrackAt(read, a, evs, n).lost == {}
  {
    if n > 0 {
      hide Touched;
      var ev := evs[n - 1];
      NothingDropped(read, a, evs, n - 1);
      if Answers(ev, a) && ev.cookies != [] {
        var f := Fold(JarsFrom(read, a, ev.ask.sent, ev.prefixes, ev.ask.at), ev.cookies, ev.ask.at);
        hide Fold, JarsFrom;
        EvictIsLongest(f.session);
        EvictIsLongest(f.kept);
        assert Dropped(f.session) == 0 && Dropped(f.kept) == 0;
        assert Names(f.session[..0]) == {} && Names(f.kept[..0]) == {};
      }
    }
  }

  /** What a response sets is readable from the instant it was accepted, whatever the request carried: nothing it
      names is lost, and no plant has reached it. */
  lemma LatestIsNeverLost(read: Reader, a: string, evs: seq<Event>, n: nat)
    requires 0 < n <= |evs| && Answers(evs[n - 1], a)
    requires Accepted(evs[n - 1].cookies, evs[n - 1].prefixes, evs[n - 1].ask.at)
    ensures TrackAt(read, a, evs, n).lost !! CookieNames(evs[n - 1].cookies)
    ensures TrackAt(read, a, evs, n).touched !! CookieNames(evs[n - 1].cookies)
  {
    var ev := evs[n - 1];
    if ev.cookies == [] {
      assert CookieNames(ev.cookies) == {};
    } else {
      EvictionTakesOnlyOlder(JarsFrom(read, a, ev.ask.sent, ev.prefixes, ev.ask.at), ev.cookies, ev.ask.at);
      hide JarsFrom, Touched, Fold, CookieNames, Lost, Dropped, Accepted, PlainRespond;
    }
  }

  /** So the last value a response gives a name is what the next read of it returns, until it dies. */
  lemma {:induction false} SetThenLook(m: Plain, cookies: seq<Cookie>, now: int, i: nat)
    requires i < |cookies| && cookies[i].maxAge >= 0
    requires forall k :: i < k < |cookies| ==> cookies[k].name != cookies[i].name
    ensures var after := PlainSetAll(m, cookies, now);
            cookies[i].name in after && Alive(after[cookies[i].name], now)
            && after[cookies[i].name].text == cookies[i].value
            && after[cookies[i].name].dies == (if cookies[i].maxAge == 0 then None else Some(now + cookies[i].maxAge))
  {
    var init := cookies[..|cookies| - 1];
    if i < |init| {
      assert init[i] == cookies[i];
      SetThenLook(m, init, now, i);
    }
  }

  lemma SetByResponse(m: Plain, prefixes: seq<string>, cookies: seq<Cookie>, now: Clock, i: nat)
    requires i < |cookies| && cookies[i].maxAge >= 0
    requires forall j :: i < j < |cookies| ==> cookies[j].name != cookies[i].name
    ensures var after, c := PlainRespond(m, prefixes, cookies, now), cookies[i];
            c.name in after && after[c.name] == Value(c.value, if c.maxAge == 0 then None else Some(now + c.maxAge))
  {
    hide PlainSetAll, Declared;
    SetThenLook(Declared(m, prefixes), cookies, now, i);
  }

  lemma {:induction false} NotSet(m: Plain, cookies: seq<Cookie>, now: int, name: string)
    requires name !in CookieNames(cookies)
    ensures var after := PlainSetAll(m, cookies, now);
            (name in after <==> name in m) && (name in m ==> after[name] == m[name])
  {
    if cookies != [] {
      CookieNamesLast(cookies);
      hide CookieNames;
      NotSet(m, cookies[..|cookies| - 1], now, name);
    }
  }

  /** One more event leaves a name's value as it is. */
  ghost predicate Spares(read: Reader, evs: seq<Event>, a: string, i: nat, name: string, session: bool)
    requires i < |evs|
  {
    var ev, after := evs[i], TrackAt(read, a, evs, i + 1);
    && (session ==> !ev.CloseBrowser?)
    && (Answers(ev, a) && ev.cookies != [] ==> OwnedName(name, ev.prefixes) && name !in CookieNames(ev.cookies))
    && name !in after.lost && name !in after.touched
  }

  /** Every event after the one at `k`, up to the one at `n`, does. */
  ghost predicate AllSpare(read: Reader, evs: seq<Event>, a: string, k: nat, n: nat, name: string, session: bool)
    requires n <= |evs|
  {
    forall m :: k < m < n ==> Spares(read, evs, a, m, name, session)
  }

  lemma SparedStep(read: Reader, t: Track, a: string, ev: Event, name: string)
    requires name in t.plain && (t.plain[name].dies.None? ==> !ev.CloseBrowser?)
    requires Answers(ev, a) && ev.cookies != [] ==> OwnedName(name, ev.prefixes) && name !in CookieNames(ev.cookies)
    ensures var after := Follow(read, t, a, ev).plain; name in after && after[name] == t.plain[name]
  {
    hide CookieNames, OwnedName, Touched, Fold, JarsFrom, Survivors, Lost, Dropped, PlainSetAll;
    if Answers(ev, a) && ev.cookies != [] { NotSet(Declared(t.plain, ev.prefixes), ev.cookies, ev.ask.at, name); }
  }

  lemma LastSpared(read: Reader, a: string, evs: seq<Event>, k: nat, n: nat, name: string, session: bool)
    requires k + 1 < n <= |evs| && AllSpare(read, evs, a, k, n, name, session)
    ensures name !in TrackAt(read, a, evs, n).lost && name !in TrackAt(read, a, evs, n).touched
  {
    hide TrackAt;
    assert Spares(read, evs, a, n - 1, name, session);
  }

  lemma {:induction false} PlainKeeps(read: Reader, a: string, evs: seq<Event>, k: nat, n: nat, name: string)
    requires k < n <= |evs| && name in TrackAt(read, a, evs, k + 1).plain
    requires AllSpare(read, evs, a, k, n, name, TrackAt(read, a, evs, k + 1).plain[name].dies.None?)
    ensures var t := TrackAt(read, a, evs, n).plain;
            name in t && t[name] == TrackAt(read, a, evs, k + 1).plain[name]
  {
    if k + 1 < n {
      PlainKeeps(read, a, evs, k, n - 1, name);
      assert Spares(read, evs, a, n - 1, name, TrackAt(read, a, evs, k + 1).plain[name].dies.None?);
      hide Follow, CookieNames, OwnedName;
      SparedStep(read, TrackAt(read, a, evs, n - 1), a, evs[n - 1], name);
    }
  }

  /** A live value of a name with a lifetime is in the kept jar the browser sent; one without is in no kept jar. */
  lemma LiveClass(w: World, a: string, t: Track, ask: Ask, prefixes: seq<string>, name: string)
    requires Refines(w, a, t) && name !in t.touched && name in t.plain && t.since <= ask.asked <= ask.at
    requires PlainRead(t.plain, t.lost, prefixes, name, ask.at).Some?
    ensures Find(InBrowser(w.browser, a, t.jars, ask.asked).kept, name).Some? <==> t.plain[name].dies.Some?
  {
    LaterAgrees(t, t.since, ask.at);
    assert Agrees(t.jars, t.plain, t.lost, name, ask.at);
    LookIsKeptFirst(t.jars, name);
    FindNames(t.jars.kept, name);
    assert Find([], name) == None;
    hide Look, Find, HostWritten, AllAgree, HoldsSession, JarName, Pack;
  }

  lemma AcceptedRead(read: Reader, w: World, a: string, t: Track, ask: Ask, prefixes: seq<string>, name: string, v: Value)
    requires Inverts(read) && Refines(w, a, t) && HostFirst(ask.sent, w.browser, ask.asked, a)
    requires t.since <= ask.asked <= ask.at
    requires name in t.plain && t.plain[name] == v && Alive(v, ask.at) && OwnedName(name, prefixes)
    requires name !in t.lost && name !in t.touched
    ensures OwnValue(w.browser, JarName(a, true), ask.asked) <= Values(ask.sent, JarName(a, true)) &&
            var rival := Rival(read, w.browser, a, true, ask, prefixes, name);
            JarRead(read, a, ask.sent, prefixes, ask.at, name) == Some(v.text)
            <==> v.dies.Some? || rival.None? || rival.value.value == v.text
  {
    assert PlainRead(t.plain, t.lost, prefixes, name, ask.at) == Some(v.text);
    hide Inverts, JarRead, PlainRead, Refines, HostFirst, Values, OwnValue, JarName, Rival, InBrowser, OwnedName;
    LiveClass(w, a, t, ask, prefixes, name);
    PlantedRead(read, w, a, t, ask, prefixes, name);
  }

  lemma IsAccepted(read: Reader, addons: set<string>, ws: seq<World>, evs: seq<Event>, k: nat)
    requires Run(read, addons, ws, evs) && k < |evs| && evs[k].Respond?
    ensures Accepted(evs[k].cookies, evs[k].prefixes, evs[k].ask.at)
  {
    hide Run, Accepted, IsHeader, StoreAll, JarCookies;
    RunLength(read, addons, ws, evs);
    RunStep(read, addons, ws, evs, k);
  }

  lemma PlainAfter(read: Reader, t: Track, a: string, ev: Event)
    requires Answers(ev, a) && ev.cookies != []
    ensures Follow(read, t, a, ev).plain == PlainRespond(t.plain, ev.prefixes, ev.cookies, ev.ask.at)
  {
    hide PlainRespond, Fold, JarsFrom, Touched, Survivors, Lost, Dropped, CookieNames;
  }

  lemma AcceptedStep(read: Reader, a: string, evs: seq<Event>, k: nat, i: nat)
    requires k < |evs| && Answers(evs[k], a) && Accepted(evs[k].cookies, evs[k].prefixes, evs[k].ask.at)
    requires i < |evs[k].cookies| && evs[k].cookies[i].maxAge >= 0
    requires forall j :: i < j < |evs[k].cookies| ==> evs[k].cookies[j].name != evs[k].cookies[i].name
    ensures var c, t := evs[k].cookies[i], TrackAt(read, a, evs, k + 1);
            && c.name in t.plain && c.name !in t.lost && c.name !in t.touched
            && t.plain[c.name] == Value(c.value, if c.maxAge == 0 then None else Some(evs[k].ask.at + c.maxAge))
  {
    hide TrackAt, Follow, PlainRespond, Accepted;
    var ev := evs[k];
    assert ev.cookies[i].name in CookieNames(ev.cookies);
    hide CookieNames;
    LatestIsNeverLost(read, a, evs, k + 1);
    TrackNext(read, a, evs, k + 1);
    PlainAfter(read, TrackAt(read, a, evs, k), a, ev);
    SetByResponse(TrackAt(read, a, evs, k).plain, ev.prefixes, ev.cookies, ev.ask.at, i);
  }

  /** An accepted response is what the module reads from then on, whatever was planted: the last value it gave a
      name comes back for as long as that value lives, until a later response of the add-on sets or evicts the
      name or drops its prefix, a plant reaches it, or, of a session value, the browser closes.  It is outranked
      only where it was set for the session and the reading request plants a kept jar that carries the name with
      another value. */
  lemma AcceptedIsReadable(read: Reader, addons: set<string>, ws: seq<World>, evs: seq<Event>, a: string,
                           ask: Ask, prefixes: seq<string>, k: nat, i: nat)
    requires Inverts(read) && Unrefused(addons) && a in addons && Run(read, addons, ws, evs)
    requires k < |evs| && Answers(evs[k], a) && i < |evs[k].cookies|
    requires forall j :: i < j < |evs[k].cookies| ==> evs[k].cookies[j].name != evs[k].cookies[i].name
    requires var c := evs[k].cookies[i];
             && (c.maxAge == 0 || (c.maxAge > 0 && ask.at < evs[k].ask.at + c.maxAge))
             && AllSpare(read, evs, a, k, |evs|, c.name, c.maxAge == 0) && OwnedName(c.name, prefixes)
    requires AsksFirst(ws[|evs|].browser, evs, a, |evs|, ask)
    ensures var c, b := evs[k].cookies[i], ws[|evs|].browser;
            OwnValue(b, JarName(a, true), ask.asked) <= Values(ask.sent, JarName(a, true)) &&
            var rival := Rival(read, b, a, true, ask, prefixes, c.name);
            JarRead(read, a, ask.sent, prefixes, ask.at, c.name) == Some(c.value)
            <==> c.maxAge > 0 || rival.None? || rival.value.value == c.value
  {
    hide Run, AllSpare, Inverts, Unrefused, JarRead, TrackAt, Refines, HostFirst, Values, OwnValue, JarName, Rival,
         NotBefore, OwnedName, Accepted;
    var n, c := |evs|, evs[k].cookies[i];
    var v := Value(c.value, if c.maxAge == 0 then None else Some(evs[k].ask.at + c.maxAge));
    var t := TrackAt(read, a, evs, n);
    IsAccepted(read, addons, ws, evs, k);
    AcceptedStep(read, a, evs, k, i);
    PlainKeeps(read, a, evs, k, n, c.name);
    if k + 1 < n { LastSpared(read, a, evs, k, n, c.name, c.maxAge == 0); }
    RunLength(read, addons, ws, evs);
    RunRefines(read, addons, ws, evs, a, n);
    SinceIsLast(read, a, evs, n, ask.asked);
    AcceptedRead(read, ws[n], a, t, ask, prefixes, c.name, v);
  }

  // ---- separation --------------------------------------------------------------------------------

  predicate Owns(ev: Event, a: string) { Answers(ev, a) || ev.CloseBrowser? }

  /** A response as the add-on knows it: what it set, for which manifest, and when, whatever the request was. */
  function Erased(ev: Event): Event {
    if ev.Respond? then ev.(ask := Ask([], ev.ask.at, ev.ask.at)) else ev
  }

  /** An add-on's own responses and the browser's closings. */
  function Own(a: string, evs: seq<Event>, n: nat): seq<Event>
    requires n <= |evs|
  {
    if n == 0 then [] else Own(a, evs, n - 1) + if Owns(evs[n - 1], a) then [Erased(evs[n - 1])] else []
  }

  /** What the add-on's own responses amount to when each meets what the last one wrote. */
  function FollowOwn(t: Track, a: string, ev: Event): Track {
    match ev
    case Respond(addon, prefixes, cookies, ask) =>
      if addon != a || cookies == [] then t
      else
        var f := Folded(t.jars, prefixes, cookies, ask.at);
        EvictIsLongest(f.session);
        EvictIsLongest(f.kept);
        Track(Survivors(f), ask.at, PlainRespond(t.plain, prefixes, cookies, ask.at),
              t.lost - CookieNames(cookies) + Lost(f), t.touched - CookieNames(cookies),
              t.dropped + Dropped(f.session) + Dropped(f.kept))
    case CloseBrowser => t.(jars := Jars([], t.jars.kept), plain := Persistent(t.plain))
    case Wait => t
    case Foreign => t
  }

  function Replay(a: string, own: seq<Event>): Track {
    if own == [] then Start() else FollowOwn(Replay(a, own[..|own| - 1]), a, own[|own| - 1])
  }

  lemma OwnNext(a: string, evs: seq<Event>, n: nat)
    requires 0 < n <= |evs|
    ensures var before := Replay(a, Own(a, evs, n - 1));
            Replay(a, Own(a, evs, n)) == if Owns(evs[n - 1], a) then FollowOwn(before, a, evs[n - 1]) else before
  {
    var own, before := Own(a, evs, n), Own(a, evs, n - 1);
    hide FollowOwn, Erased;
    if Owns(evs[n - 1], a) {
      assert own[..|own| - 1] == before;
      SentIsErased(Replay(a, before), a, evs[n - 1]);
    } else {
      assert own == before;
    }
  }

  lemma SentIsErased(t: Track, a: string, ev: Event)
    ensures FollowOwn(t, a, Erased(ev)) == FollowOwn(t, a, ev)
  {
    hide Folded, Survivors, Lost, Dropped, PlainRespond, CookieNames;
  }

  /** What an event does to the plain map it does whatever the jars. */
  lemma PlainStep(read: Reader, t: Track, u: Track, a: string, ev: Event)
    requires t.plain == u.plain
    ensures Follow(read, t, a, ev).plain == if Owns(ev, a) then FollowOwn(u, a, ev).plain else u.plain
  {
    hide Fold, Folded, JarsFrom, Survivors, Lost, Dropped, PlainRespond, CookieNames, Touched, Persistent;
  }

  /** The plain map depends on the add-on's own responses alone, whatever is planted. */
  lemma {:induction false} PlainIsOwn(read: Reader, a: string, evs: seq<Event>, n: nat)
    requires n <= |evs|
    ensures TrackAt(read, a, evs, n).plain == Replay(a, Own(a, evs, n)).plain
  {
    if n > 0 {
      hide Follow, FollowOwn, Own, Replay;
      PlainIsOwn(read, a, evs, n - 1);
      OwnNext(a, evs, n);
      PlainStep(read, TrackAt(read, a, evs, n - 1), Replay(a, Own(a, evs, n - 1)), a, evs[n - 1]);
    }
  }

  lemma UnplantedJars(read: Reader, w: World, a: string, t: Track, ask: Ask, prefixes: seq<string>)
    requires Inverts(read) && Refines(w, a, t) && t.touched == {} && Unplanted(ask.sent, w.browser, ask.asked, a)
    requires t.since <= ask.asked <= ask.at
    ensures JarsFrom(read, a, ask.sent, prefixes, ask.at) == KeepLive(t.jars, prefixes, ask.at)
  {
    AgreesAreClean(t, t.since);
    CleanLifetimes(t.jars, t.since, {});
    hide Clean, AllAgree, Holds, Inverts, Unplanted, JarsFrom, KeepLive;
    HostReadsBack(read, w.browser, a, t.jars, ask.sent, prefixes, t.since, ask.asked, ask.at);
  }

  lemma UnplantedFollow(read: Reader, w: World, a: string, t: Track, ev: Event)
    requires Inverts(read) && Refines(w, a, t) && t.touched == {} && Answers(ev, a)
    requires t.since <= ev.ask.asked <= ev.ask.at && Unplanted(ev.ask.sent, w.browser, ev.ask.asked, a)
    ensures Follow(read, t, a, ev) == FollowOwn(t, a, ev)
  {
    hide Refines, Fold, JarsFrom, KeepLive, Survivors, Lost, Dropped, PlainRespond, CookieNames, Touched, Unplanted, Inverts;
    UnplantedJars(read, w, a, t, ev.ask, ev.prefixes);
    NothingTouched(read, w, a, t, ev.ask, ev.prefixes);
  }

  lemma OthersFollow(read: Reader, a: string, t: Track, ev: Event)
    requires !Answers(ev, a)
    ensures Follow(read, t, a, ev) == if Owns(ev, a) then FollowOwn(t, a, ev) else t
  {
  }

  /** And with nothing planted so does everything. */
  lemma {:induction false} TrackIsReplay(read: Reader, addons: set<string>, ws: seq<World>, evs: seq<Event>,
                                a: string, n: nat)
    requires Inverts(read) && Unrefused(addons) && a in addons && Run(read, addons, ws, evs) && n <= |evs|
    requires NonePlanted(ws, evs, a, n)
    ensures TrackAt(read, a, evs, n) == Replay(a, Own(a, evs, n))
  {
    if n > 0 {
      hide Run, Inverts, Unrefused, Refines, Unplanted, Follow, FollowOwn, Own, Replay, NonePlanted;
      RunLength(read, addons, ws, evs);
      NonePlantedAt(read, ws, evs, a, n);
      TrackIsReplay(read, addons, ws, evs, a, n - 1);
      RunRefines(read, addons, ws, evs, a, n - 1);
      NeverTouched(read, addons, ws, evs, a, n - 1);
      OwnNext(a, evs, n);
      var before := TrackAt(read, a, evs, n - 1);
      if Answers(evs[n - 1], a) {
        UnplantedFollow(read, ws[n - 1], a, before, evs[n - 1]);
      } else {
        OthersFollow(read, a, before, evs[n - 1]);
      }
    }
  }

  /** A read is a function of the add-on's own responses and the clock. */
  function OwnRead(a: string, own: seq<Event>, prefixes: seq<string>, name: string, now: int): Option<string> {
    PlainRead(Replay(a, own).plain, Replay(a, own).lost, prefixes, name, now)
  }

  lemma ReadIsOwnRead(read: Reader, addons: set<string>, ws: seq<World>, evs: seq<Event>, a: string,
                      ask: Ask, prefixes: seq<string>, name: string)
    requires Inverts(read) && Unrefused(addons) && a in addons && Run(read, addons, ws, evs)
    requires NonePlanted(ws, evs, a, |evs|) && AsksAlone(ws[|evs|].browser, evs, a, |evs|, ask)
    ensures JarRead(read, a, ask.sent, prefixes, ask.at, name) == OwnRead(a, Own(a, evs, |evs|), prefixes, name, ask.at)
  {
    UnplantedReads(read, addons, ws, evs, a, ask, prefixes, name);
    TrackIsReplay(read, addons, ws, evs, a, |evs|);
    hide Run, Unrefused, TrackAt, Own, Replay, JarRead, PlainRead, Inverts, AsksAlone, NonePlanted;
  }

  /** Two runs, of any length and over any sets of add-ons, in which `a` answered the same way at the same
      times and met none but its own jars give `a` the same reads: nothing another add-on does, or a visitor
      plants for one, is visible to it. */
  lemma ReadsDependOnOwnResponses(read: Reader, a: string, name: string, prefixes: seq<string>,
                                  addons1: set<string>, ws1: seq<World>, evs1: seq<Event>, ask1: Ask,
                                  addons2: set<string>, ws2: seq<World>, evs2: seq<Event>, ask2: Ask)
    requires Inverts(read) && a in addons1 && a in addons2 && Unrefused(addons1) && Unrefused(addons2)
    requires Run(read, addons1, ws1, evs1) && Run(read, addons2, ws2, evs2)
    requires Own(a, evs1, |evs1|) == Own(a, evs2, |evs2|) && ask1.at == ask2.at
    requires NonePlanted(ws1, evs1, a, |evs1|) && AsksAlone(ws1[|evs1|].browser, evs1, a, |evs1|, ask1)
    requires NonePlanted(ws2, evs2, a, |evs2|) && AsksAlone(ws2[|evs2|].browser, evs2, a, |evs2|, ask2)
    ensures JarRead(read, a, ask1.sent, prefixes, ask1.at, name) == JarRead(read, a, ask2.sent, prefixes, ask2.at, name)
  {
    ReadIsOwnRead(read, addons1, ws1, evs1, a, ask1, prefixes, name);
    ReadIsOwnRead(read, addons2, ws2, evs2, a, ask2, prefixes, name);
    hide Run, Unrefused, Own, OwnRead, JarRead, Inverts, NonePlanted, AsksAlone;
  }

  /** With a name lost to eviction or not, its read from its own responses. */
  function OwnReadIf(a: string, own: seq<Event>, lost: bool, prefixes: seq<string>, name: string, now: int): Option<string> {
    PlainRead(Replay(a, own).plain, if lost then {name} else {}, prefixes, name, now)
  }

  predicate WasLost(read: Reader, evs: seq<Event>, a: string, name: string) {
    name in TrackAt(read, a, evs, |evs|).lost
  }

  lemma UnreachedIsOwnRead(read: Reader, addons: set<string>, ws: seq<World>, evs: seq<Event>, a: string,
                           ask: Ask, prefixes: seq<string>, name: string)
    requires Unrefused(addons) && a in addons && Run(read, addons, ws, evs)
    requires NotBefore(evs, a, |evs|, ask.at) && !Reached(read, evs, a, ask, prefixes, name)
    ensures JarRead(read, a, ask.sent, prefixes, ask.at, name)
            == OwnReadIf(a, Own(a, evs, |evs|), WasLost(read, evs, a, name), prefixes, name, ask.at)
  {
    hide Reached, TrackAt, JarRead, Own, Replay, OwnedName, NotBefore;
    EveryReadIsThePlainMaps(read, addons, ws, evs, a, ask, prefixes, name);
    hide Run, Unrefused;
    PlainIsOwn(read, a, evs, |evs|);
  }

  /** With anything planted the same holds of every name no plant has reached, as long as eviction, which planted
      entries can bring on, has taken it in both runs or in neither. */
  lemma UntouchedReadsAgree(read: Reader, a: string, name: string, prefixes: seq<string>,
                            addons1: set<string>, ws1: seq<World>, evs1: seq<Event>, ask1: Ask,
                            addons2: set<string>, ws2: seq<World>, evs2: seq<Event>, ask2: Ask)
    requires a in addons1 && a in addons2 && Unrefused(addons1) && Unrefused(addons2)
    requires Run(read, addons1, ws1, evs1) && Run(read, addons2, ws2, evs2)
    requires Own(a, evs1, |evs1|) == Own(a, evs2, |evs2|) && ask1.at == ask2.at
    requires NotBefore(evs1, a, |evs1|, ask1.at) && !Reached(read, evs1, a, ask1, prefixes, name)
    requires NotBefore(evs2, a, |evs2|, ask2.at) && !Reached(read, evs2, a, ask2, prefixes, name)
    requires WasLost(read, evs1, a, name) <==> WasLost(read, evs2, a, name)
    ensures JarRead(read, a, ask1.sent, prefixes, ask1.at, name) == JarRead(read, a, ask2.sent, prefixes, ask2.at, name)
  {
    hide Run, Unrefused, Own, OwnReadIf, JarRead, Reached, WasLost, NotBefore;
    UnreachedIsOwnRead(read, addons1, ws1, evs1, a, ask1, prefixes, name);
    UnreachedIsOwnRead(read, addons2, ws2, evs2, a, ask2, prefixes, name);
  }
}
