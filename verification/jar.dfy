/** The cookie jar on values: what every operation of internal/addon/http.go computes, and the laws
    those results obey.  The loops that compute them are in jarhost.dfy. */
module Jar {
  import opened Wrappers
  import opened Utf8
  import opened Numerals
  import opened JarJson
  import Base64Url

  const MAX_COOKIE_JAR := 3072
  const MAX_COOKIE_AGE := 34_560_000
  const COOKIE_JAR_PREFIX := "linkctrl_addon_"
  const KEPT_JAR_SUFFIX := "_kept"

  /** Unix seconds on the host's clock: after 1970, and far enough from the end of int64 to add a lifetime. */
  type Clock = x: int | 0 <= x < 0x4000_0000_0000_0000

  /** A cookie in a request's Cookie header. */
  datatype SentCookie = SentCookie(name: string, value: string)

  /** A cookie a module sets: age zero lasts the browser session, negative deletes. */
  datatype Cookie = Cookie(name: string, value: string, maxAge: Int64)

  /** A cookie the host writes, with the same age convention. */
  datatype JarCookie = JarCookie(name: string, value: string, maxAge: int)

  datatype Jars = Jars(session: seq<Entry>, kept: seq<Entry>)

  // ---- names and acceptance ----------------------------------------------------------------------

  function JarName(addon: string, kept: bool): string {
    if kept then COOKIE_JAR_PREFIX + addon + KEPT_JAR_SUFFIX else COOKIE_JAR_PREFIX + addon
  }

  predicate OwnedName(name: string, prefixes: seq<string>) {
    exists i :: 0 <= i < |prefixes| && prefixes[i] <= name
  }

  predicate ContainsAny(s: string, bad: string) { exists i :: 0 <= i < |s| && s[i] in bad }

  datatype CookieError = NoName | BadName | BadValue | TooLongLived | NotOwned

  function CheckCookie(c: Cookie, prefixes: seq<string>): (r: Option<CookieError>)
    ensures r.None? ==> OwnedName(c.name, prefixes) && c.maxAge <= MAX_COOKIE_AGE
  {
    if c.name == "" then Some(NoName)
    else if ContainsAny(c.name, "\r\n\0 ;=,\t") then Some(BadName)
    else if ContainsAny(c.value, "\r\n\0 ;,\"\\") then Some(BadValue)
    else if c.maxAge > MAX_COOKIE_AGE then Some(TooLongLived)
    else if !OwnedName(c.name, prefixes) then Some(NotOwned)
    else None
  }

  ghost predicate Avoids(s: string, bad: string) { forall c :: c in s ==> c !in bad }

  /** A cookie is taken exactly when it has a name, neither half carries a character a header gives a meaning to, it
      lives no longer than a browser keeps one, and its name begins with a declared prefix. */
  lemma CookieTaken(c: Cookie, prefixes: seq<string>)
    ensures CheckCookie(c, prefixes).None? <==>
              && |c.name| > 0 && Avoids(c.name, "\r\n\0 ;=,\t") && Avoids(c.value, "\r\n\0 ;,\"\\")
              && c.maxAge <= 34_560_000 && exists p :: p in prefixes && p <= c.name
  {
    if OwnedName(c.name, prefixes) {
      var i :| 0 <= i < |prefixes| && prefixes[i] <= c.name;
      assert prefixes[i] in prefixes;
    }
  }

  // ---- 64-bit time arithmetic --------------------------------------------------------------------

  /** The expiry of a lifetime: a Duration is int64 nanoseconds, and that product wraps. */
  function Expiry(now: Clock, age: Int64): Int64 {
    now + Wrap64(age * 1_000_000_000) / 1_000_000_000
  }

  /** Inside the bound checkCookie enforces, the arithmetic is the arithmetic meant. */
  lemma ExpiryExact(now: Clock, age: Int64)
    requires 0 <= age <= MAX_COOKIE_AGE
    ensures Expiry(now, age) == now + age
  {}

  /** Past that bound it stays so exactly until the nanoseconds no longer fit 64 bits; a lifetime of ten billion
      seconds would have ended before it began. */
  lemma ExpiryExactly(now: Clock, age: Int64)
    requires age >= 0
    ensures Expiry(now, age) == now + age <==> age * 1_000_000_000 < 0x8000_0000_0000_0000
  {}

  // ---- lists of entries --------------------------------------------------------------------------

  predicate LiveEntry(e: Entry, now: int) { e.exp == 0 || e.exp > now }

  /** Which entries a filtering loop keeps. */
  datatype Keep = NotNamed(name: string) | NotAmong(names: set<string>) | LiveOwned(prefixes: seq<string>, now: int) {
    predicate Keeps(e: Entry) {
      match this
      case NotNamed(name) => e.name != name
      case NotAmong(names) => e.name !in names
      case LiveOwned(prefixes, now) => LiveEntry(e, now) && OwnedName(e.name, prefixes)
    }
  }

  function Filter(es: seq<Entry>, keep: Keep): (r: seq<Entry>) {
    if es == [] then []
    else
      var rest := Filter(es[..|es| - 1], keep);
      if keep.Keeps(es[|es| - 1]) then rest + [es[|es| - 1]] else rest
  }

  function Names(es: seq<Entry>): set<string> { set i | 0 <= i < |es| :: es[i].name }

  ghost predicate UniqueNames(es: seq<Entry>) {
    forall i, j :: 0 <= i < j < |es| ==> es[i].name != es[j].name
  }

  /** The entry a name reads as: the last one carrying it. */
  function Find(es: seq<Entry>, name: string): Option<Entry> {
    if es == [] then None
    else if es[|es| - 1].name == name then Some(es[|es| - 1])
    else Find(es[..|es| - 1], name)
  }

  /** A second jar of one name: it adds only names the first does not hold. */
  function Merge(first: seq<Entry>, second: seq<Entry>): seq<Entry> {
    if second == [] then first
    else
      var merged := Merge(first, second[..|second| - 1]);
      var e := second[|second| - 1];
      if e.name in Names(merged) then merged else merged + [e]
  }

  lemma NamesAppend(a: seq<Entry>, b: seq<Entry>)
    ensures Names(a + b) == Names(a) + Names(b)
  {
    forall n | n in Names(a) + Names(b) ensures n in Names(a + b) {
      if n in Names(a) {
        var i :| 0 <= i < |a| && a[i].name == n;
        assert (a + b)[i].name == n;
      } else {
        var i :| 0 <= i < |b| && b[i].name == n;
        assert (a + b)[|a| + i].name == n;
      }
    }
  }

  lemma {:induction false} FilterMembers(es: seq<Entry>, keep: Keep)
    ensures forall e :: e in Filter(es, keep) <==> e in es && keep.Keeps(e)
  {
    if es != [] {
      var init := es[..|es| - 1];
      FilterMembers(init, keep);
      assert es == init + [es[|es| - 1]];
    }
  }

  lemma {:induction false} FilterAppend(a: seq<Entry>, b: seq<Entry>, keep: Keep)
    ensures Filter(a + b, keep) == Filter(a, keep) + Filter(b, keep)
  {
    if b == [] {
      assert a + b == a;
    } else {
      FilterAppend(a, b[..|b| - 1], keep);
      assert (a + b)[..|a + b| - 1] == a + b[..|b| - 1];
    }
  }

  lemma {:induction false} FilterKeepsAll(es: seq<Entry>, keep: Keep)
    requires forall e :: e in es ==> keep.Keeps(e)
    ensures Filter(es, keep) == es
  {
    if es != [] {
      FilterKeepsAll(es[..|es| - 1], keep);
      assert es == es[..|es| - 1] + [es[|es| - 1]];
    }
  }

  /** Leaving out one more name is leaving out the larger set of names. */
  lemma {:induction false} FilterTwice(es: seq<Entry>, names: set<string>, name: string)
    ensures Filter(Filter(es, NotAmong(names)), NotNamed(name)) == Filter(es, NotAmong(names + {name}))
  {
    if es != [] {
      var init := es[..|es| - 1];
      var rest := Filter(init, NotAmong(names));
      FilterTwice(init, names, name);
      FilterAppend(rest, [es[|es| - 1]], NotNamed(name));
    }
  }

  lemma {:induction false} FindNames(es: seq<Entry>, name: string)
    ensures Find(es, name).Some? <==> name in Names(es)
    ensures Find(es, name).Some? ==> Find(es, name).value in es && Find(es, name).value.name == name
  {
    if es != [] && es[|es| - 1].name != name {
      FindNames(es[..|es| - 1], name);
    }
  }

  lemma {:induction false} FindAppend(a: seq<Entry>, b: seq<Entry>, name: string)
    ensures Find(a + b, name) == if Find(b, name).Some? then Find(b, name) else Find(a, name)
  {
    if b == [] {
      assert a + b == a;
    } else {
      FindAppend(a, b[..|b| - 1], name);
      assert (a + b)[..|a + b| - 1] == a + b[..|b| - 1];
    }
  }

  /** With unique names, a filtered list reads as the whole list does wherever the filter keeps the entry. */
  lemma {:induction false} FindFilter(es: seq<Entry>, keep: Keep, name: string)
    requires UniqueNames(es)
    ensures Find(Filter(es, keep), name) ==
            if Find(es, name).Some? && keep.Keeps(Find(es, name).value) then Find(es, name) else None
  {
    if es != [] {
      var init, last := es[..|es| - 1], es[|es| - 1];
      FindFilter(init, keep, name);
      FindNames(init, name);
      FindAppend(Filter(init, keep), [last], name);
    }
  }

  /** A sublist picked in order by a filter keeps names unique. */
  lemma {:induction false} FilterUnique(es: seq<Entry>, keep: Keep)
    requires UniqueNames(es)
    ensures UniqueNames(Filter(es, keep))
  {
    if es != [] {
      var init := es[..|es| - 1];
      FilterUnique(init, keep);
      FilterMembers(init, keep);
      assert forall e :: e in init ==> e.name != es[|es| - 1].name;
    }
  }

  /** Merging a second jar keeps names unique, adds every new name, and leaves the first jar every shared one. */
  lemma {:induction false} MergeFirstWins(first: seq<Entry>, second: seq<Entry>)
    requires UniqueNames(first)
    ensures UniqueNames(Merge(first, second))
    ensures first <= Merge(first, second)
    ensures Names(Merge(first, second)) == Names(first) + Names(second)
    ensures forall name :: name in Names(first) ==> Find(Merge(first, second), name) == Find(first, name)
  {
    if second != [] {
      var init, e := second[..|second| - 1], second[|second| - 1];
      MergeFirstWins(first, init);
      assert second == init + [e];
      NamesAppend(init, [e]);
      var merged := Merge(first, init);
      if e.name !in Names(merged) {
        NamesAppend(merged, [e]);
        forall name | name in Names(first) ensures Find(merged + [e], name) == Find(merged, name) {
          FindAppend(merged, [e], name);
        }
      }
    }
  }

  lemma {:induction false} MergeIntoEmpty(es: seq<Entry>)
    requires UniqueNames(es)
    ensures Merge([], es) == es
  {
    if es != [] {
      var init := es[..|es| - 1];
      MergeIntoEmpty(init);
      assert es == init + [es[|es| - 1]];
    }
  }

  // ---- packing -----------------------------------------------------------------------------------

  /** None is the refusal of a jar no browser would keep. */
  function Pack(es: seq<Entry>): (r: Option<string>)
    ensures r.Some? ==> |r.value| <= MAX_COOKIE_JAR
    ensures es == [] ==> r == Some("")
  {
    if es == [] then Some("")
    else
      var value := Base64Url.Encode(Marshal(es));
      if |value| > MAX_COOKIE_JAR then None else Some(value)
  }

  function Unpack(read: Reader, value: string): seq<Entry> {
    if value == "" || ByteLen(value) > MAX_COOKIE_JAR then []
    else match Base64Url.Decode(value)
      case None => []
      case Some(raw) => (match read(raw) case None => [] case Some(es) => es)
  }

  /** The longest suffix that packs; see EvictIsLongest. */
  function Evict(es: seq<Entry>): seq<Entry>
    decreases |es|
  {
    if Pack(es).Some? then es else Evict(es[1..])
  }

  /** Whatever packs reads back whole: the size test on the way in admits everything written on the way out. */
  lemma UnpackPack(read: Reader, es: seq<Entry>)
    requires Inverts(read) && Pack(es).Some?
    ensures Unpack(read, Pack(es).value) == es
    ensures Pack(es).value == "" <==> es == []
  {
    if es != [] {
      var raw := Marshal(es);
      Base64Url.RoundTrip(raw);
      Base64Url.EncodedLength(raw);
      MarshalShrinks(es);
    }
  }

  /** What is read of a value: entries only from one within the size a browser keeps that is base64url of something
      the reader takes. */
  lemma UnpackExactly(read: Reader, value: string, es: seq<Entry>)
    requires es != [] && value != ""
    ensures Unpack(read, value) == es <==>
              ByteLen(value) <= 3072 && exists raw :: Base64Url.Decode(value) == Some(raw) && read(raw) == Some(es)
  {
  }

  /** Packed length is monotone in suffixes. */
  lemma {:induction false} SuffixPacks(es: seq<Entry>, k: nat)
    requires k <= |es| && Pack(es).Some?
    ensures Pack(es[k..]).Some?
  {
    if k > 0 {
      SuffixPacks(es, k - 1);
      var shorter := es[k - 1..];
      assert shorter[1..] == es[k..];
      MarshalShrinks(shorter);
      Base64Url.EncodedLength(Marshal(shorter));
      Base64Url.EncodedLength(Marshal(shorter[1..]));
    }
  }

  /** How many entries eviction drops. */
  function Dropped(es: seq<Entry>): nat
    decreases |es|
  {
    if Pack(es).Some? then 0 else 1 + Dropped(es[1..])
  }

  /** Eviction drops a prefix, what is left packs, and nothing longer would have. */
  lemma {:induction false} EvictIsLongest(es: seq<Entry>)
    ensures Dropped(es) <= |es| && Evict(es) == es[Dropped(es)..] && Pack(Evict(es)).Some?
    ensures forall k :: 0 <= k <= |es| && Pack(es[k..]).Some? ==> Dropped(es) <= k
    decreases |es|
  {
    if Pack(es).None? {
      EvictIsLongest(es[1..]);
      assert es[1..][Dropped(es[1..])..] == es[Dropped(es)..];
      forall k | 0 <= k <= |es| && Pack(es[k..]).Some? ensures Dropped(es) <= k {
        assert es[0..] == es;
        if k > 0 { assert es[1..][k - 1..] == es[k..]; }
      }
    } else {
      assert es[0..] == es;
    }
  }

  lemma SliceOfAppend(a: seq<Entry>, b: seq<Entry>, k: nat)
    requires k <= |a|
    ensures (a + b)[k..] == a[k..] + b
  {}

  /** A tail that packs on its own is never touched. */
  lemma EvictSparesTail(older: seq<Entry>, added: seq<Entry>)
    requires Pack(added).Some?
    ensures Dropped(older + added) <= |older|
    ensures Evict(older + added) == older[Dropped(older + added)..] + added
  {
    var all := older + added;
    EvictIsLongest(all);
    SliceOfAppend(older, added, |older|);
    assert all[|older|..] == added;
    SliceOfAppend(older, added, Dropped(all));
  }

  // ---- the jar's own lifetime --------------------------------------------------------------------

  /** The longest remaining life among the entries, starting from one second. */
  function Longest(es: seq<Entry>, now: Clock): int {
    if es == [] then 1
    else
      var rest := Longest(es[..|es| - 1], now);
      var remaining := Wrap64(es[|es| - 1].exp - now);
      if remaining > rest then remaining else rest
  }

  function JarMaxAge(es: seq<Entry>, now: Clock): int {
    if Longest(es, now) > MAX_COOKIE_AGE then MAX_COOKIE_AGE else Longest(es, now)
  }

  /** Entries that passed keepLive: zero, or in the future. */
  ghost predicate AllLive(es: seq<Entry>, now: int) { forall e :: e in es ==> LiveEntry(e, now) }

  /** After keepLive the subtraction cannot overflow, so the lifetime is the true longest remaining one. */
  lemma {:induction false} LongestIsMaximum(es: seq<Entry>, now: Clock)
    requires AllLive(es, now)
    ensures Longest(es, now) >= 1 && forall e :: e in es ==> e.exp - now <= Longest(es, now)
    ensures Longest(es, now) == 1 || exists e :: e in es && e.exp - now == Longest(es, now)
  {
    if es != [] {
      var init, last := es[..|es| - 1], es[|es| - 1];
      assert es == init + [last];
      assert AllLive(init, now);
      LongestIsMaximum(init, now);
      assert last in es && LiveEntry(last, now);
      assert Wrap64(last.exp - now) == last.exp - now;
    }
  }

  /** In range whatever the jar holds, a visitor's edits included. */
  lemma {:induction false} MaxAgeInRange(es: seq<Entry>, now: Clock)
    ensures 1 <= JarMaxAge(es, now) <= MAX_COOKIE_AGE
  {
    if es != [] { MaxAgeInRange(es[..|es| - 1], now); }
  }

  /** For entries the host wrote, no entry outlives its jar, and the jar outlives nothing it holds. */
  lemma MaxAgeIsTight(es: seq<Entry>, now: Clock)
    requires es != []
    requires forall e :: e in es ==> now < e.exp <= now + MAX_COOKIE_AGE
    ensures 1 <= JarMaxAge(es, now) <= MAX_COOKIE_AGE
    ensures forall e :: e in es ==> e.exp <= now + JarMaxAge(es, now)
    ensures exists e :: e in es && e.exp == now + JarMaxAge(es, now)
  {
    LongestIsMaximum(es, now);
    MaxAgeInRange(es, now);
    assert es[0] in es;
  }

  // ---- reading and writing -----------------------------------------------------------------------

  /** Both jars as the header carries them, merged per name, before anything is dropped. */
  function RawJars(read: Reader, addon: string, sent: seq<SentCookie>): Jars {
    if sent == [] then Jars([], [])
    else
      var before := RawJars(read, addon, sent[..|sent| - 1]);
      var c := sent[|sent| - 1];
      if c.name == JarName(addon, false) then Jars(Merge(before.session, Unpack(read, c.value)), before.kept)
      else if c.name == JarName(addon, true) then Jars(before.session, Merge(before.kept, Unpack(read, c.value)))
      else before
  }

  function KeepLive(jars: Jars, prefixes: seq<string>, now: int): Jars {
    Jars(Filter(jars.session, LiveOwned(prefixes, now)), Filter(jars.kept, LiveOwned(prefixes, now)))
  }

  function JarsFrom(read: Reader, addon: string, sent: seq<SentCookie>, prefixes: seq<string>, now: int): Jars {
    KeepLive(RawJars(read, addon, sent), prefixes, now)
  }

  function ApplyToJar(jars: Jars, c: Cookie, now: Clock): Jars {
    var session := Filter(jars.session, NotNamed(c.name));
    var kept := Filter(jars.kept, NotNamed(c.name));
    if c.maxAge < 0 then Jars(session, kept)
    else if c.maxAge == 0 then Jars(session + [Entry(c.name, c.value, 0)], kept)
    else Jars(session, kept + [Entry(c.name, c.value, Expiry(now, c.maxAge))])
  }

  function Fold(jars: Jars, cookies: seq<Cookie>, now: Clock): Jars {
    if cookies == [] then jars
    else ApplyToJar(Fold(jars, cookies[..|cookies| - 1], now), cookies[|cookies| - 1], now)
  }

  /** checkJarFits: the cookies pack as though the browser held nothing. */
  predicate JarFits(cookies: seq<Cookie>, now: Clock) {
    var added := Fold(Jars([], []), cookies, now);
    cookies != [] ==> Pack(added.session).Some? && Pack(added.kept).Some?
  }

  /** What a response must satisfy about its cookies before the host takes it. */
  predicate Accepted(cookies: seq<Cookie>, prefixes: seq<string>, now: Clock) {
    (forall i :: 0 <= i < |cookies| ==> CheckCookie(cookies[i], prefixes).None?) && JarFits(cookies, now)
  }

  predicate HeldName(sent: seq<SentCookie>, name: string) { exists i :: 0 <= i < |sent| && sent[i].name == name }

  /** What the host writes for one lifetime class. */
  function ClassCookies(name: string, kept: bool, es: seq<Entry>, held: bool, now: Clock): seq<JarCookie> {
    if es == [] then (if held then [JarCookie(name, "", -1)] else [])
    else match Pack(es)
      case None => if held then [JarCookie(name, "", -1)] else []
      case Some(value) => [JarCookie(name, value, if kept then JarMaxAge(es, now) else 0)]
  }

  function JarCookies(read: Reader, addon: string, sent: seq<SentCookie>, prefixes: seq<string>,
                      cookies: seq<Cookie>, now: Clock): (seq<JarCookie>, nat)
  {
    if cookies == [] then ([], 0)
    else
      var folded := Fold(JarsFrom(read, addon, sent, prefixes, now), cookies, now);
      var sessionName, keptName := JarName(addon, false), JarName(addon, true);
      (ClassCookies(sessionName, false, Evict(folded.session), HeldName(sent, sessionName), now) +
       ClassCookies(keptName, true, Evict(folded.kept), HeldName(sent, keptName), now),
       Dropped(folded.session) + Dropped(folded.kept))
  }

  lemma JarNamesDiffer(addon: string)
    ensures JarName(addon, false) != JarName(addon, true)
  {
    assert |JarName(addon, false)| < |JarName(addon, true)|;
  }

  lemma ClassCookieShape(name: string, kept: bool, es: seq<Entry>, held: bool, now: Clock)
    ensures var out := ClassCookies(name, kept, es, held, now);
            |out| <= 1 && forall c :: c in out ==>
              c.name == name && |c.value| <= MAX_COOKIE_JAR && c.maxAge <= MAX_COOKIE_AGE
  {
    MaxAgeInRange(es, now);
  }

  /** At most one cookie per lifetime class, each under that class's own name and within its own bound,
      whatever the browser sent and the module set. */
  lemma AtMostTwoCookies(read: Reader, addon: string, sent: seq<SentCookie>, prefixes: seq<string>,
                         cookies: seq<Cookie>, now: Clock)
    ensures var out := JarCookies(read, addon, sent, prefixes, cookies, now).0;
            |out| <= 2
            && (forall c :: c in out ==> c.name == JarName(addon, false) || c.name == JarName(addon, true))
            && (|out| == 2 ==> out[0].name != out[1].name)
            && (forall c :: c in out ==> |c.value| <= MAX_COOKIE_JAR && c.maxAge <= MAX_COOKIE_AGE)
  {
    JarNamesDiffer(addon);
    if cookies != [] {
      var folded := Fold(JarsFrom(read, addon, sent, prefixes, now), cookies, now);
      var s, k := JarName(addon, false), JarName(addon, true);
      ClassCookieShape(s, false, Evict(folded.session), HeldName(sent, s), now);
      ClassCookieShape(k, true, Evict(folded.kept), HeldName(sent, k), now);
    }
  }

  // ---- what folding does -------------------------------------------------------------------------

  function CookieNames(cookies: seq<Cookie>): set<string> { set i | 0 <= i < |cookies| :: cookies[i].name }

  /** One more cookie of a name splits the same way in either class. */
  lemma SplitStep(es: seq<Entry>, names: set<string>, added: seq<Entry>, name: string)
    ensures Filter(Filter(es, NotAmong(names)) + added, NotNamed(name))
            == Filter(es, NotAmong(names + {name})) + Filter(added, NotNamed(name))
  {
    FilterTwice(es, names, name);
    FilterAppend(Filter(es, NotAmong(names)), added, NotNamed(name));
  }

  lemma RegroupEntries(a: seq<Entry>, b: seq<Entry>, c: seq<Entry>)
    ensures (a + b) + c == a + (b + c)
  {}

  lemma CookieNamesLast(cookies: seq<Cookie>)
    requires cookies != []
    ensures CookieNames(cookies) == CookieNames(cookies[..|cookies| - 1]) + {cookies[|cookies| - 1].name}
  {
    var init := cookies[..|cookies| - 1];
    forall i | 0 <= i < |cookies| ensures cookies[i].name in CookieNames(init) + {cookies[|cookies| - 1].name} {
      if i < |init| { assert init[i] == cookies[i]; }
    }
  }

  ghost predicate SplitsAs(folded: Jars, jars: Jars, added: Jars, untouched: Keep) {
    && folded.session == Filter(jars.session, untouched) + added.session
    && folded.kept == Filter(jars.kept, untouched) + added.kept
  }

  lemma ApplySplits(folded: Jars, jars: Jars, added: Jars, names: set<string>, c: Cookie, now: Clock)
    requires SplitsAs(folded, jars, added, NotAmong(names))
    ensures SplitsAs(ApplyToJar(folded, c, now), jars, ApplyToJar(added, c, now), NotAmong(names + {c.name}))
  {
    SplitStep(jars.session, names, added.session, c.name);
    SplitStep(jars.kept, names, added.kept, c.name);
    var untouched := NotAmong(names + {c.name});
    if c.maxAge == 0 {
      RegroupEntries(Filter(jars.session, untouched), Filter(added.session, NotNamed(c.name)), [Entry(c.name, c.value, 0)]);
    } else if c.maxAge > 0 {
      RegroupEntries(Filter(jars.kept, untouched), Filter(added.kept, NotNamed(c.name)),
                     [Entry(c.name, c.value, Expiry(now, c.maxAge))]);
    }
  }

  /** Folding is the untouched held entries followed by folding from nothing, in each class. */
  lemma {:induction false} FoldSplits(jars: Jars, cookies: seq<Cookie>, now: Clock)
    ensures SplitsAs(Fold(jars, cookies, now), jars, Fold(Jars([], []), cookies, now), NotAmong(CookieNames(cookies)))
  {
    if cookies == [] {
      assert CookieNames(cookies) == {};
      FilterKeepsAll(jars.session, NotAmong({}));
      FilterKeepsAll(jars.kept, NotAmong({}));
    } else {
      var init := cookies[..|cookies| - 1];
      FoldSplits(jars, init, now);
      CookieNamesLast(cookies);
      ApplySplits(Fold(jars, init, now), jars, Fold(Jars([], []), init, now), CookieNames(init),
                  cookies[|cookies| - 1], now);
    }
  }

  ghost predicate EndsWith(es: seq<Entry>, tail: seq<Entry>) {
    |tail| <= |es| && es[|es| - |tail|..] == tail
  }

  lemma EvictEndsWith(older: seq<Entry>, added: seq<Entry>)
    requires Pack(added).Some?
    ensures EndsWith(Evict(older + added), added) && Dropped(older + added) <= |older|
  {
    EvictSparesTail(older, added);
  }

  /** A response the host accepted reaches the browser whole: in each class the survivors end with
      exactly what the accepting check folded, so eviction takes older entries only. */
  lemma AcceptedReachesBrowser(jars: Jars, cookies: seq<Cookie>, now: Clock)
    requires cookies != [] && JarFits(cookies, now)
    ensures var folded := Fold(jars, cookies, now);
            var added := Fold(Jars([], []), cookies, now);
            var untouched := NotAmong(CookieNames(cookies));
            EndsWith(Evict(folded.session), added.session) && EndsWith(Evict(folded.kept), added.kept)
            && Dropped(folded.session) <= |Filter(jars.session, untouched)|
            && Dropped(folded.kept) <= |Filter(jars.kept, untouched)|
  {
    FoldSplits(jars, cookies, now);
    var added := Fold(Jars([], []), cookies, now);
    EvictEndsWith(Filter(jars.session, NotAmong(CookieNames(cookies))), added.session);
    EvictEndsWith(Filter(jars.kept, NotAmong(CookieNames(cookies))), added.kept);
  }
}
