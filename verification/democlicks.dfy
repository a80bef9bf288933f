/** The demo's click history: nested loops over one stream of pseudo-random draws, some of whose clicks are
    discarded because they lie after a cutoff.  What is proved relates whole runs with different cutoffs. */
module DemoClicks {
  const HOUR := 3600
  const DAY := 86400

  /** A generator of draws: from one state, a number and the next state.  `volume` is a link's traffic on a
      day, after the one draw that varies it. */
  datatype World = World(
    next: (nat, nat) -> (nat, nat),
    volume: (Link, int, int, nat) -> (nat, nat),
    hours: seq<nat>, countries: seq<string>, referrers: seq<string>)

  datatype Link = Link(weight: nat, first: int, last: int, spikeDay: int, spikeMult: real)

  /** A click, with what the rest of its row is computed from: the day and the visitor give its hash, the
      visitor or the agent draw its device. */
  datatype Row = Row(
    link: string, at: int, day: int, visitor: nat, country: string, referrer: string, agent: nat, latency: nat, isBot: bool)

  ghost predicate Furnished(w: World) { w.hours != [] && w.countries != [] && w.referrers != [] }

  /** A draw below a bound. */
  function IntN(w: World, rng: nat, bound: nat): (r: (nat, nat))
    requires bound > 0
    ensures r.0 < bound
  {
    (w.next(rng, bound).0 % bound, w.next(rng, bound).1)
  }

  function Crawlers(humans: nat): nat { if (85 * humans + 500) / 1000 > 1 then (85 * humans + 500) / 1000 else 1 }

  /** What has been generated so far, and where the stream stands. */
  datatype Run = Run(rows: seq<Row>, rng: nat)

  // ---- one click ---------------------------------------------------------------------------------------

  /** The click a stream gives next, whether or not it is kept, and the stream after it. */
  function Human(w: World, link: string, day: int, rng: nat): (Row, nat)
    requires Furnished(w)
  {
    var (visitor, r1) := IntN(w, rng, 900);
    var (hour, r2) := IntN(w, r1, |w.hours|);
    var (minute, r3) := IntN(w, r2, 60);
    var (second, r4) := IntN(w, r3, 60);
    var (country, r5) := IntN(w, r4, |w.countries|);
    var (referrer, r6) := IntN(w, r5, |w.referrers|);
    var (latency, r7) := IntN(w, r6, 2600);
    (Row(link, day + w.hours[hour] * HOUR + minute * 60 + second, day, visitor, w.countries[country],
         w.referrers[referrer], 0, 200 + latency, false), r7)
  }

  function Crawler(w: World, link: string, day: int, rng: nat): (Row, nat)
    requires Furnished(w)
  {
    var (visitor, r1) := IntN(w, rng, 40);
    var (hour, r2) := IntN(w, r1, 24);
    var (minute, r3) := IntN(w, r2, 60);
    var (second, r4) := IntN(w, r3, 60);
    var (agent, r5) := IntN(w, r4, 10);
    var (country, r6) := IntN(w, r5, |w.countries|);
    var (latency, r7) := IntN(w, r6, 1800);
    (Row(link, day + hour * HOUR + minute * 60 + second, day, visitor, w.countries[country], "", agent, 200 + latency, true), r7)
  }

  function Keep(run: Run, click: (Row, nat), cutoff: int): Run {
    Run(if click.0.at > cutoff then run.rows else run.rows + [click.0], click.1)
  }

  // ---- the loops as functions ----------------------------------------------------------------------------

  function Humans(w: World, run: Run, link: string, day: int, n: nat, cutoff: int): Run
    requires Furnished(w)
  {
    if n == 0 then run
    else
      var before := Humans(w, run, link, day, n - 1, cutoff);
      Keep(before, Human(w, link, day, before.rng), cutoff)
  }

  function Crawls(w: World, run: Run, link: string, day: int, n: nat, cutoff: int): Run
    requires Furnished(w)
  {
    if n == 0 then run
    else
      var before := Crawls(w, run, link, day, n - 1, cutoff);
      Keep(before, Crawler(w, link, day, before.rng), cutoff)
  }

  /** One link on one day: nothing outside the link's own days. */
  function OneDay(w: World, run: Run, link: string, l: Link, midnight: int, ago: int, cutoff: int): Run
    requires Furnished(w)
  {
    if ago > l.first || ago < l.last then run
    else
      var day := midnight - ago * DAY;
      var (n, rng) := w.volume(l, ago, day, run.rng);
      Crawls(w, Humans(w, run.(rng := rng), link, day, n, cutoff), link, day, Crawlers(n), cutoff)
  }

  /** The days of one link from the oldest down to, and not including, `ago`. */
  function Days(w: World, run: Run, link: string, l: Link, midnight: int, days: nat, ago: int, cutoff: int): Run
    requires Furnished(w) && -1 <= ago < days
    decreases days - ago
  {
    if ago == days - 1 then run
    else OneDay(w, Days(w, run, link, l, midnight, days, ago + 1, cutoff), link, l, midnight, ago + 1, cutoff)
  }

  function OneLink(w: World, run: Run, cat: seq<Link>, ids: map<nat, string>, i: nat, midnight: int,
                   days: nat, cutoff: int): Run
    requires Furnished(w) && i < |cat|
  {
    if cat[i].weight == 0 || i !in ids then run
    else Days(w, run, ids[i], cat[i], midnight, days, -1, cutoff)
  }

  function Links(w: World, run: Run, cat: seq<Link>, ids: map<nat, string>, n: nat, midnight: int,
                 days: nat, cutoff: int): Run
    requires Furnished(w) && n <= |cat|
  {
    if n == 0 then run
    else OneLink(w, Links(w, run, cat, ids, n - 1, midnight, days, cutoff), cat, ids, n - 1, midnight, days, cutoff)
  }

  function Truncate(now: int, unit: int): int
    requires unit > 0
  {
    now - now % unit
  }

  function Rows(w: World, seed: nat, cat: seq<Link>, ids: map<nat, string>, days: nat, now: int): seq<Row>
    requires Furnished(w)
  {
    Links(w, Run([], seed), cat, ids, |cat|, Truncate(now, DAY), days, Truncate(now, HOUR)).rows
  }

  // ---- the loops -------------------------------------------------------------------------------------------

  method DemoClickRows(w: World, seed: nat, cat: seq<Link>, ids: map<nat, string>, days: nat,
                       now: int) returns (rows: seq<Row>)
    requires Furnished(w)
    ensures rows == Rows(w, seed, cat, ids, days, now)
  {
    hide Humans, Crawls, Truncate, Crawlers;
    var rng := seed;
    rows := [];
    var cutoff := Truncate(now, HOUR);
    var midnight := Truncate(now, DAY);
    ghost var start := Run([], seed);
    for i := 0 to |cat|
      invariant Run(rows, rng) == Links(w, start, cat, ids, i, midnight, days, cutoff)
    {
      if cat[i].weight == 0 {
        continue;
      }
      if i !in ids {
        continue;
      }
      ghost var link := Run(rows, rng);
      var ago := days - 1;
      while ago >= 0
        invariant -1 <= ago < days
        invariant Run(rows, rng) == Days(w, link, ids[i], cat[i], midnight, days, ago, cutoff)
      {
        var today := ago;
        ago := ago - 1;
        if today > cat[i].first || today < cat[i].last {
          continue;
        }
        var day := midnight - today * DAY;
        var n;
        n, rng := w.volume(cat[i], today, day, rng).0, w.volume(cat[i], today, day, rng).1;
        rows, rng := HumanLoop(w, rows, rng, ids[i], day, n, cutoff);
        rows, rng := CrawlerLoop(w, rows, rng, ids[i], day, Crawlers(n), cutoff);
      }
    }
  }

  method HumanLoop(w: World, given: seq<Row>, from: nat, link: string, day: int, n: nat, cutoff: int)
    returns (rows: seq<Row>, rng: nat)
    requires Furnished(w)
    ensures Run(rows, rng) == Humans(w, Run(given, from), link, day, n, cutoff)
  {
    hide IntN;
    rows, rng := given, from;
    for k := 0 to n
      invariant Run(rows, rng) == Humans(w, Run(given, from), link, day, k, cutoff)
    {
      var visitor, hour, minute, second, country, referrer, latency;
      visitor, rng := Draw(w, rng, 900);
      hour, rng := Draw(w, rng, |w.hours|);
      minute, rng := Draw(w, rng, 60);
      second, rng := Draw(w, rng, 60);
      var at := day + w.hours[hour] * HOUR + minute * 60 + second;
      country, rng := Draw(w, rng, |w.countries|);
      referrer, rng := Draw(w, rng, |w.referrers|);
      latency, rng := Draw(w, rng, 2600);
      if at > cutoff {
        continue;
      }
      rows := rows + [Row(link, at, day, visitor, w.countries[country], w.referrers[referrer], 0, 200 + latency, false)];
    }
  }

  method Draw(w: World, rng: nat, bound: nat) returns (v: nat, next: nat)
    requires bound > 0
    ensures (v, next) == IntN(w, rng, bound)
  {
    v, next := IntN(w, rng, bound).0, IntN(w, rng, bound).1;
  }

  method CrawlerLoop(w: World, given: seq<Row>, from: nat, link: string, day: int, n: nat, cutoff: int)
    returns (rows: seq<Row>, rng: nat)
    requires Furnished(w)
    ensures Run(rows, rng) == Crawls(w, Run(given, from), link, day, n, cutoff)
  {
    hide IntN;
    rows, rng := given, from;
    for k := 0 to n
      invariant Run(rows, rng) == Crawls(w, Run(given, from), link, day, k, cutoff)
    {
      var visitor, hour, minute, second, agent, country, latency;
      visitor, rng := Draw(w, rng, 40);
      hour, rng := Draw(w, rng, 24);
      minute, rng := Draw(w, rng, 60);
      second, rng := Draw(w, rng, 60);
      var at := day + hour * HOUR + minute * 60 + second;
      agent, rng := Draw(w, rng, 10);
      country, rng := Draw(w, rng, |w.countries|);
      latency, rng := Draw(w, rng, 1800);
      if at > cutoff {
        continue;
      }
      rows := rows + [Row(link, at, day, visitor, w.countries[country], "", agent, 200 + latency, true)];
    }
  }

  // ---- which days have clicks ------------------------------------------------------------------------------

  /** What a row says of who clicked: a visitor with a referrer, or a crawler without. */
  predicate Shaped(w: World, row: Row) {
    && row.country in w.countries
    && if row.isBot then row.visitor < 40 && row.agent < 10 && row.referrer == "" && 200 <= row.latency < 2000
       else row.visitor < 900 && row.referrer in w.referrers && 200 <= row.latency < 2800
  }

  /** A click of one link on one day, not after the cutoff. */
  predicate Clicked(w: World, row: Row, link: string, day: int, cutoff: int) {
    Shaped(w, row) && row.link == link && row.day == day && day <= row.at <= cutoff
  }

  /** Whatever was there stays, and whatever is new is a click of this link on this day. */
  ghost predicate Adds(w: World, before: Run, after: Run, link: string, day: int, cutoff: int) {
    before.rows <= after.rows && forall row :: row in after.rows ==> row in before.rows || Clicked(w, row, link, day, cutoff)
  }

  ghost predicate HasCrawler(w: World, rows: seq<Row>, link: string, day: int, cutoff: int) {
    exists row :: row in rows && row.isBot && Clicked(w, row, link, day, cutoff)
  }

  lemma {:induction false} HumansAdd(w: World, run: Run, link: string, day: int, n: nat, cutoff: int)
    requires Furnished(w)
    ensures Adds(w, run, Humans(w, run, link, day, n, cutoff), link, day, cutoff)
  {
    hide IntN;
    if n > 0 { HumansAdd(w, run, link, day, n - 1, cutoff); }
  }

  lemma {:induction false} CrawlsAdd(w: World, run: Run, link: string, day: int, n: nat, cutoff: int)
    requires Furnished(w)
    ensures Adds(w, run, Crawls(w, run, link, day, n, cutoff), link, day, cutoff)
    ensures n > 0 && day + DAY <= cutoff ==>
              HasCrawler(w, Crawls(w, run, link, day, n, cutoff).rows, link, day, cutoff)
  {
    hide IntN;
    if n > 0 {
      CrawlsAdd(w, run, link, day, n - 1, cutoff);
      var before := Crawls(w, run, link, day, n - 1, cutoff);
      if day + DAY <= cutoff { LastCrawler(w, link, day, before, cutoff); }
    }
  }

  lemma LastCrawler(w: World, link: string, day: int, before: Run, cutoff: int)
    requires Furnished(w) && day + DAY <= cutoff
    ensures var click := Crawler(w, link, day, before.rng).0;
            click in Keep(before, Crawler(w, link, day, before.rng), cutoff).rows && click.isBot
            && Clicked(w, click, link, day, cutoff)
  {
  }

  /** The days on which a link has any clicks. */
  predicate OwnDay(l: Link, days: nat, ago: int) { 0 <= ago < days && l.last <= ago <= l.first }

  lemma OneDayAdds(w: World, run: Run, link: string, l: Link, midnight: int, ago: int, cutoff: int)
    requires Furnished(w)
    ensures var after, day := OneDay(w, run, link, l, midnight, ago, cutoff), midnight - ago * DAY;
            && (if l.last <= ago <= l.first then Adds(w, run, after, link, day, cutoff) else after == run)
            && (l.last <= ago <= l.first && day + DAY <= cutoff ==>
                  HasCrawler(w, after.rows, link, day, cutoff))
  {
    hide Humans, Crawls, Clicked;
    if l.last <= ago <= l.first {
      var day := midnight - ago * DAY;
      var (n, rng) := w.volume(l, ago, day, run.rng);
      HumansAdd(w, run.(rng := rng), link, day, n, cutoff);
      CrawlsAdd(w, Humans(w, run.(rng := rng), link, day, n, cutoff), link, day, Crawlers(n), cutoff);
    }
  }

  ghost predicate OfLink(w: World, row: Row, link: string, l: Link, midnight: int, days: nat, cutoff: int) {
    exists ago :: OwnDay(l, days, ago) && Clicked(w, row, link, midnight - ago * DAY, cutoff)
  }

  /** Every own day from the oldest down to the one after `ago` has been visited by a crawler, if it is over. */
  ghost predicate Visited(w: World, rows: seq<Row>, link: string, l: Link, midnight: int, days: nat, ago: int, cutoff: int) {
    forall d :: ago < d && OwnDay(l, days, d) && midnight - d * DAY + DAY <= cutoff ==>
      HasCrawler(w, rows, link, midnight - d * DAY, cutoff)
  }

  lemma StillVisited(w: World, rows: seq<Row>, more: seq<Row>, link: string, l: Link, midnight: int, days: nat, ago: int,
                     cutoff: int)
    requires rows <= more && Visited(w, rows, link, l, midnight, days, ago, cutoff)
    ensures Visited(w, more, link, l, midnight, days, ago, cutoff)
  {
    hide Clicked;
    forall d | ago < d && OwnDay(l, days, d) && midnight - d * DAY + DAY <= cutoff
      ensures HasCrawler(w, more, link, midnight - d * DAY, cutoff)
    {
      var row :| row in rows && row.isBot && Clicked(w, row, link, midnight - d * DAY, cutoff);
      assert row in more;
    }
  }

  lemma {:induction false} DaysAdd(w: World, run: Run, link: string, l: Link, midnight: int, days: nat, ago: int, cutoff: int)
    requires Furnished(w) && -1 <= ago < days
    ensures var after := Days(w, run, link, l, midnight, days, ago, cutoff);
            && run.rows <= after.rows
            && (forall row :: row in after.rows ==> row in run.rows || OfLink(w, row, link, l, midnight, days, cutoff))
            && Visited(w, after.rows, link, l, midnight, days, ago, cutoff)
    decreases days - ago
  {
    hide OneDay, Clicked, HasCrawler;
    if ago != days - 1 {
      DaysAdd(w, run, link, l, midnight, days, ago + 1, cutoff);
      var before := Days(w, run, link, l, midnight, days, ago + 1, cutoff);
      OneDayAdds(w, before, link, l, midnight, ago + 1, cutoff);
      var after := OneDay(w, before, link, l, midnight, ago + 1, cutoff);
      StillVisited(w, before.rows, after.rows, link, l, midnight, days, ago + 1, cutoff);
      forall row | row in after.rows ensures row in run.rows || OfLink(w, row, link, l, midnight, days, cutoff) {
        if row !in before.rows { assert OwnDay(l, days, ago + 1); }
      }
    }
  }

  predicate Listed(cat: seq<Link>, ids: map<nat, string>, i: nat) { i < |cat| && cat[i].weight != 0 && i in ids }

  ghost predicate OfSome(w: World, row: Row, cat: seq<Link>, ids: map<nat, string>, midnight: int, days: nat, cutoff: int) {
    exists i: nat :: Listed(cat, ids, i) && OfLink(w, row, ids[i], cat[i], midnight, days, cutoff)
  }

  lemma {:induction false} LinksAdd(w: World, seed: nat, cat: seq<Link>, ids: map<nat, string>, n: nat, midnight: int,
                                    days: nat, cutoff: int)
    requires Furnished(w) && n <= |cat|
    ensures var rows := Links(w, Run([], seed), cat, ids, n, midnight, days, cutoff).rows;
            && (forall row :: row in rows ==> OfSome(w, row, cat, ids, midnight, days, cutoff))
            && (forall i: nat :: i < n && Listed(cat, ids, i) ==> Visited(w, rows, ids[i], cat[i], midnight, days, -1, cutoff))
  {
    hide Days, OfLink, Visited;
    if n > 0 {
      LinksAdd(w, seed, cat, ids, n - 1, midnight, days, cutoff);
      if Listed(cat, ids, n - 1) {
        var before := Links(w, Run([], seed), cat, ids, n - 1, midnight, days, cutoff);
        var after := Days(w, before, ids[n - 1], cat[n - 1], midnight, days, -1, cutoff);
        DaysAdd(w, before, ids[n - 1], cat[n - 1], midnight, days, -1, cutoff);
        forall i: nat | i < n && Listed(cat, ids, i) ensures Visited(w, after.rows, ids[i], cat[i], midnight, days, -1, cutoff) {
          if i < n - 1 { StillVisited(w, before.rows, after.rows, ids[i], cat[i], midnight, days, -1, cutoff); }
        }
      }
    }
  }

  /** Every click is of a link in the catalogue with a weight and an id, on a day of that link's own within the days
      asked for, and not after the current hour began. */
  lemma ClicksOnOwnDays(w: World, seed: nat, cat: seq<Link>, ids: map<nat, string>, days: nat, now: int, row: Row)
    requires Furnished(w) && row in Rows(w, seed, cat, ids, days, now)
    ensures row.day <= row.at <= now && Shaped(w, row)
    ensures exists i: nat, ago: int ::
              Listed(cat, ids, i) && OwnDay(cat[i], days, ago) && row.link == ids[i] && row.day == Truncate(now, DAY) - ago * DAY
  {
    var midnight, cutoff := Truncate(now, DAY), Truncate(now, HOUR);
    LinksAdd(w, seed, cat, ids, |cat|, midnight, days, cutoff);
    assert cutoff <= now;
    hide Links, Truncate;
    assert OfSome(w, row, cat, ids, midnight, days, cutoff);
    var i: nat :| Listed(cat, ids, i) && OfLink(w, row, ids[i], cat[i], midnight, days, cutoff);
    var ago :| OwnDay(cat[i], days, ago) && Clicked(w, row, ids[i], midnight - ago * DAY, cutoff);
  }

  /** And no such day that is over goes without one: the crawlers come whatever the traffic. */
  lemma NoDayIsSkipped(w: World, seed: nat, cat: seq<Link>, ids: map<nat, string>, days: nat, now: int, i: nat, ago: int)
    requires Furnished(w) && Listed(cat, ids, i) && OwnDay(cat[i], days, ago) && ago >= 1
    ensures exists row :: row in Rows(w, seed, cat, ids, days, now) && row.isBot && row.link == ids[i]
                          && row.day == Truncate(now, DAY) - ago * DAY
  {
    var midnight, cutoff := Truncate(now, DAY), Truncate(now, HOUR);
    LinksAdd(w, seed, cat, ids, |cat|, midnight, days, cutoff);
    HourIsInDay(now);
    assert midnight <= cutoff;
    hide Links, Truncate;
    assert Visited(w, Rows(w, seed, cat, ids, days, now), ids[i], cat[i], midnight, days, -1, cutoff);
    assert HasCrawler(w, Rows(w, seed, cat, ids, days, now), ids[i], midnight - ago * DAY, cutoff);
  }

  /** The hours of the table are hours of a day. */
  ghost predicate HoursOfADay(w: World) { forall h :: h in w.hours ==> h < 24 }

  lemma {:induction false} HumansCount(w: World, run: Run, link: string, day: int, n: nat, cutoff: int)
    requires Furnished(w) && HoursOfADay(w) && day + DAY <= cutoff
    ensures var rows := Humans(w, run, link, day, n, cutoff).rows;
            run.rows <= rows && |rows| == |run.rows| + n && forall k :: |run.rows| <= k < |rows| ==> !rows[k].isBot
  {
    hide IntN;
    if n > 0 {
      HumansCount(w, run, link, day, n - 1, cutoff);
      InTheDay(w, link, day, Humans(w, run, link, day, n - 1, cutoff).rng);
    }
  }

  lemma InTheDay(w: World, link: string, day: int, rng: nat)
    requires Furnished(w) && HoursOfADay(w)
    ensures day <= Human(w, link, day, rng).0.at < day + DAY && day <= Crawler(w, link, day, rng).0.at < day + DAY
  {
    var hour := IntN(w, IntN(w, rng, 900).1, |w.hours|).0;
    assert w.hours[hour] in w.hours;
  }

  lemma {:induction false} CrawlsCount(w: World, run: Run, link: string, day: int, n: nat, cutoff: int)
    requires Furnished(w) && HoursOfADay(w) && day + DAY <= cutoff
    ensures var rows := Crawls(w, run, link, day, n, cutoff).rows;
            run.rows <= rows && |rows| == |run.rows| + n && forall k :: |run.rows| <= k < |rows| ==> rows[k].isBot
  {
    hide IntN;
    if n > 0 {
      CrawlsCount(w, run, link, day, n - 1, cutoff);
      InTheDay(w, link, day, Crawls(w, run, link, day, n - 1, cutoff).rng);
    }
  }

  /** A link's own day that is over brings exactly its volume, and after it the crawlers that go with it. */
  lemma OneDayCounts(w: World, run: Run, link: string, l: Link, midnight: int, ago: int, cutoff: int)
    requires Furnished(w) && HoursOfADay(w) && l.last <= ago <= l.first && midnight - ago * DAY + DAY <= cutoff
    ensures var n, was := w.volume(l, ago, midnight - ago * DAY, run.rng).0, |run.rows|;
            var rows := OneDay(w, run, link, l, midnight, ago, cutoff).rows;
            && |rows| == was + n + Crawlers(n)
            && forall k :: was <= k < |rows| ==> (rows[k].isBot <==> k >= was + n)
  {
    var day := midnight - ago * DAY;
    var (n, rng) := w.volume(l, ago, day, run.rng);
    hide Humans, Crawls, Crawlers;
    HumansCount(w, run.(rng := rng), link, day, n, cutoff);
    CrawlsCount(w, Humans(w, run.(rng := rng), link, day, n, cutoff), link, day, Crawlers(n), cutoff);
  }

  /** The crawlers' share: one at least, and otherwise 8.5 percent of the human clicks to the nearest whole one. */
  lemma CrawlersRound(humans: nat)
    ensures Crawlers(humans) >= 1
    ensures humans >= 18 ==> 85 * humans - 500 < 1000 * Crawlers(humans) <= 85 * humans + 500
    ensures humans < 18 ==> Crawlers(humans) == 1
  {
  }

  // ---- two cutoffs -------------------------------------------------------------------------------------------

  /** The rows not after a moment. */
  function UpTo(rows: seq<Row>, moment: int): seq<Row> {
    if rows == [] then []
    else UpTo(rows[..|rows| - 1], moment) + if rows[|rows| - 1].at > moment then [] else [rows[|rows| - 1]]
  }

  /** One run is the other, cut short at a moment: the same stream, and the other's rows up to it. */
  predicate CutShort(a: Run, b: Run, moment: int) { a.rng == b.rng && a.rows == UpTo(b.rows, moment) }

  lemma KeepCuts(a: Run, b: Run, click: (Row, nat), c1: int, c2: int)
    requires c1 <= c2 && CutShort(a, b, c1)
    ensures CutShort(Keep(a, click, c1), Keep(b, click, c2), c1)
  {
    assert (b.rows + [click.0])[..|b.rows|] == b.rows;
  }

  lemma {:induction false} HumansCut(w: World, a: Run, b: Run, link: string, day: int, n: nat, c1: int, c2: int)
    requires Furnished(w) && c1 <= c2 && CutShort(a, b, c1)
    ensures CutShort(Humans(w, a, link, day, n, c1), Humans(w, b, link, day, n, c2), c1)
  {
    hide Keep, Human, UpTo;
    if n > 0 {
      HumansCut(w, a, b, link, day, n - 1, c1, c2);
      var x, y := Humans(w, a, link, day, n - 1, c1), Humans(w, b, link, day, n - 1, c2);
      KeepCuts(x, y, Human(w, link, day, x.rng), c1, c2);
    }
  }

  lemma {:induction false} CrawlsCut(w: World, a: Run, b: Run, link: string, day: int, n: nat, c1: int, c2: int)
    requires Furnished(w) && c1 <= c2 && CutShort(a, b, c1)
    ensures CutShort(Crawls(w, a, link, day, n, c1), Crawls(w, b, link, day, n, c2), c1)
  {
    hide Keep, Crawler, UpTo;
    if n > 0 {
      CrawlsCut(w, a, b, link, day, n - 1, c1, c2);
      var x, y := Crawls(w, a, link, day, n - 1, c1), Crawls(w, b, link, day, n - 1, c2);
      KeepCuts(x, y, Crawler(w, link, day, x.rng), c1, c2);
    }
  }

  lemma OneDayCut(w: World, a: Run, b: Run, link: string, l: Link, midnight: int, ago: int, c1: int, c2: int)
    requires Furnished(w) && c1 <= c2 && CutShort(a, b, c1)
    ensures CutShort(OneDay(w, a, link, l, midnight, ago, c1), OneDay(w, b, link, l, midnight, ago, c2), c1)
  {
    hide UpTo, Humans, Crawls;
    var (n, rng) := w.volume(l, ago, midnight - ago * DAY, a.rng);
    var day := midnight - ago * DAY;
    HumansCut(w, a.(rng := rng), b.(rng := rng), link, day, n, c1, c2);
    CrawlsCut(w, Humans(w, a.(rng := rng), link, day, n, c1), Humans(w, b.(rng := rng), link, day, n, c2),
              link, day, Crawlers(n), c1, c2);
  }

  lemma {:induction false} DaysCut(w: World, a: Run, b: Run, link: string, l: Link, midnight: int, days: nat,
                                   ago: int, c1: int, c2: int)
    requires Furnished(w) && c1 <= c2 && CutShort(a, b, c1) && -1 <= ago < days
    ensures CutShort(Days(w, a, link, l, midnight, days, ago, c1), Days(w, b, link, l, midnight, days, ago, c2), c1)
    decreases days - ago
  {
    hide CutShort, OneDay;
    if ago != days - 1 {
      DaysCut(w, a, b, link, l, midnight, days, ago + 1, c1, c2);
      OneDayCut(w, Days(w, a, link, l, midnight, days, ago + 1, c1), Days(w, b, link, l, midnight, days, ago + 1, c2),
                link, l, midnight, ago + 1, c1, c2);
    }
  }

  lemma {:induction false} LinksCut(w: World, a: Run, b: Run, cat: seq<Link>, ids: map<nat, string>, n: nat,
                                    midnight: int, days: nat, c1: int, c2: int)
    requires Furnished(w) && c1 <= c2 && CutShort(a, b, c1) && n <= |cat|
    ensures CutShort(Links(w, a, cat, ids, n, midnight, days, c1), Links(w, b, cat, ids, n, midnight, days, c2), c1)
  {
    hide CutShort, Days;
    if n > 0 {
      LinksCut(w, a, b, cat, ids, n - 1, midnight, days, c1, c2);
      if cat[n - 1].weight != 0 && n - 1 in ids {
        DaysCut(w, Links(w, a, cat, ids, n - 1, midnight, days, c1), Links(w, b, cat, ids, n - 1, midnight, days, c2),
                ids[n - 1], cat[n - 1], midnight, days, -1, c1, c2);
      }
    }
  }

  /** The demo a run makes earlier in a day is the one a later run makes, cut off at the earlier hour; a click
      that is discarded costs the stream what a kept one does. */
  lemma EarlierIsCutShort(w: World, seed: nat, cat: seq<Link>, ids: map<nat, string>, days: nat, now1: int, now2: int)
    requires Furnished(w) && now1 <= now2 && Truncate(now1, DAY) == Truncate(now2, DAY)
    ensures Rows(w, seed, cat, ids, days, now1) == UpTo(Rows(w, seed, cat, ids, days, now2), Truncate(now1, HOUR))
  {
    HoursInOrder(now1, now2);
    LinksCut(w, Run([], seed), Run([], seed), cat, ids, |cat|, Truncate(now1, DAY), days, Truncate(now1, HOUR), Truncate(now2, HOUR));
  }

  lemma HoursInOrder(now1: int, now2: int)
    requires now1 <= now2
    ensures Truncate(now1, HOUR) <= Truncate(now2, HOUR)
  {
  }

  /** So runs within one hour make one demo. */
  lemma SameHourSameDemo(w: World, seed: nat, cat: seq<Link>, ids: map<nat, string>, days: nat, now1: int, now2: int)
    requires Furnished(w) && Truncate(now1, HOUR) == Truncate(now2, HOUR)
    ensures Rows(w, seed, cat, ids, days, now1) == Rows(w, seed, cat, ids, days, now2)
  {
    HourIsInDay(now1);
    HourIsInDay(now2);
  }

  lemma HourIsInDay(now: int)
    ensures Truncate(now, DAY) == Truncate(Truncate(now, HOUR), DAY)
  {
    var days, rest := now / DAY, now % DAY;
    var hours, left := rest / HOUR, rest % HOUR;
    assert now == HOUR * (24 * days + hours) + left && 0 <= hours < 24;
    assert Truncate(now, HOUR) == DAY * days + HOUR * hours;
    assert Truncate(now, DAY) == DAY * days;
  }
}
