/** Leader-elected job families: every replica runs one goroutine per family, and a pass of a family runs
    only while its session holds the family's advisory lock.  Every interleaving of any number of replicas
    is a sequence of events below; the theorems hold of every state such a sequence reaches. */
module Jobs {
  import opened Wrappers

  const RETIRED_KEY := 0x6c63_6a6f_6273_0001

  /** rollup, dimension-rollup, mail, webhooks, maintenance, domains, automation, update-check. */
  const KEYS: seq<int> := [
    0x6c63_6a6f_6273_0101, 0x6c63_6a6f_6273_0102, 0x6c63_6a6f_6273_0103, 0x6c63_6a6f_6273_0104,
    0x6c63_6a6f_6273_0105, 0x6c63_6a6f_6273_0106, 0x6c63_6a6f_6273_0107, 0x6c63_6a6f_6273_0108]

  ghost predicate Distinct(keys: seq<int>) {
    forall i, j :: 0 <= i < j < |keys| ==> keys[i] != keys[j]
  }

  /** One family's goroutine in one replica. */
  datatype Goroutine = Goroutine(replica: nat, family: nat)

  /** Where a family goroutine stands: in its select; inside a pass, between leader-elected steps; or in
      one call of withLeadership, holding the lock's connection once it has one. */
  datatype Place =
    | Select | InPass | WantsConn
    | HasConn(conn: nat) | RunsPass(conn: nat) | Unlocks(conn: nat) | Releases(conn: nat)
    | Exited
  {
    predicate Holds() { HasConn? || RunsPass? || Unlocks? || Releases? }
  }

  datatype Phase = Starting(next: nat) | Stopping | Stopped

  /** The scheduler's owner: how far start or stop has got, and the WaitGroup's counter. */
  datatype Owner = Owner(phase: Phase, wg: int)

  /** A session-scoped advisory lock: who holds it and how many times over. */
  datatype Lock = Lock(conn: nat, depth: nat)

  /** `home` is the pool each connection belongs to, `dead` the connections that have died so far, and
      `skipped` every pass a goroutine dropped because it lost the lock. */
  datatype State = State(
    owners: map<nat, Owner>,
    at: map<Goroutine, Place>,
    locks: map<int, Lock>,
    home: map<nat, nat>,
    dead: set<nat>,
    skipped: seq<Goroutine>)

  const NOTHING := State(map[], map[], map[], map[], {}, [])

  datatype Action =
    | Tick | EndPass | Exit
    | Call | Acquired(conn: nat) | AcquireFails
    | Try | TryFails(granted: bool)
    | PassReturns | Unlock | UnlockFails | Release

  datatype Event =
    | Boot(replica: nat) | Launch(replica: nat) | Cancel(replica: nat) | WaitReturns(replica: nat)
    | Act(who: Goroutine, action: Action)
    | Die(conn: nat)

  predicate Free(at: map<Goroutine, Place>, c: nat) { forall g :: g in at && at[g].Holds() ==> at[g].conn != c }

  /** Postgres grants a try-lock nobody holds, and one the same session already holds. */
  predicate Grants(locks: map<int, Lock>, key: int, c: nat) { key !in locks || locks[key].conn == c }

  predicate CanAct(keys: seq<int>, s: State, g: Goroutine, a: Action)
    requires g.family < |keys|
  {
    g in s.at && g.replica in s.owners &&
    var place := s.at[g];
    match a
    case Tick => place.Select?
    case EndPass => place.InPass?
    case Exit => place.Select? && s.owners[g.replica].phase.Stopping?
    case Call => place.InPass?
    case Acquired(c) => place.WantsConn? && Free(s.at, c) && (c in s.home ==> s.home[c] == g.replica)
    case AcquireFails => place.WantsConn?
    case Try => place.HasConn? && place.conn !in s.dead
    case TryFails(granted) =>
      place.HasConn? && (granted ==> place.conn !in s.dead && Grants(s.locks, keys[g.family], place.conn))
    case PassReturns => place.RunsPass?
    case Unlock => place.Unlocks? && place.conn !in s.dead
    case UnlockFails => place.Unlocks?
    case Release => place.Releases?
  }

  predicate Enabled(keys: seq<int>, s: State, e: Event) {
    match e
    case Boot(r) => r !in s.owners
    case Launch(r) =>
      r in s.owners && s.owners[r].phase.Starting? && s.owners[r].phase.next < |keys|
    case Cancel(r) => r in s.owners && s.owners[r].phase == Starting(|keys|)
    case WaitReturns(r) => r in s.owners && s.owners[r].phase.Stopping? && s.owners[r].wg == 0
    case Act(g, a) => g.family < |keys| && CanAct(keys, s, g, a)
    case Die(c) => c in s.home && c !in s.dead
  }

  function Relock(locks: map<int, Lock>, key: int, c: nat): map<int, Lock> {
    locks[key := if key in locks then Lock(c, locks[key].depth + 1) else Lock(c, 1)]
  }

  /** Unlocking gives back one of the session's holds, and nothing of anybody else's. */
  function Unlocked(locks: map<int, Lock>, key: int, c: nat): map<int, Lock> {
    if key !in locks || locks[key].conn != c then locks
    else if locks[key].depth > 1 then locks[key := Lock(c, locks[key].depth - 1)]
    else locks - {key}
  }

  /** A dead session's locks are gone. */
  function Orphaned(locks: map<int, Lock>, c: nat): map<int, Lock> {
    map k | k in locks && locks[k].conn != c :: locks[k]
  }

  function Move(s: State, g: Goroutine, place: Place): State { s.(at := s.at[g := place]) }

  function Acted(keys: seq<int>, s: State, g: Goroutine, a: Action): State
    requires g.family < |keys| && CanAct(keys, s, g, a)
  {
    var key := keys[g.family];
    var place := s.at[g];
    match a
    case Tick => Move(s, g, InPass)
    case EndPass => Move(s, g, Select)
    case Exit =>
      var o := s.owners[g.replica];
      Move(s, g, Exited).(owners := s.owners[g.replica := o.(wg := o.wg - 1)])
    case Call => Move(s, g, WantsConn)
    case Acquired(c) => Move(s, g, HasConn(c)).(home := s.home[c := g.replica])
    case AcquireFails => Move(s, g, InPass)
    case Try =>
      if Grants(s.locks, key, place.conn) then Move(s, g, RunsPass(place.conn)).(locks := Relock(s.locks, key, place.conn))
      else Move(s, g, Releases(place.conn)).(skipped := s.skipped + [g])
    case TryFails(granted) =>
      Move(s, g, Releases(place.conn)).(locks := if granted then Relock(s.locks, key, place.conn) else s.locks)
    case PassReturns => Move(s, g, Unlocks(place.conn))
    case Unlock => Move(s, g, Releases(place.conn)).(locks := Unlocked(s.locks, key, place.conn))
    case UnlockFails => Move(s, g, Releases(place.conn))
    case Release => Move(s, g, InPass)
  }

  function Next(keys: seq<int>, s: State, e: Event): State
    requires Enabled(keys, s, e)
  {
    match e
    case Boot(r) => s.(owners := s.owners[r := Owner(Starting(0), 0)])
    case Launch(r) =>
      var o := s.owners[r];
      Move(s, Goroutine(r, o.phase.next), InPass)
        .(owners := s.owners[r := Owner(Starting(o.phase.next + 1), o.wg + 1)])
    case Cancel(r) => s.(owners := s.owners[r := s.owners[r].(phase := Stopping)])
    case WaitReturns(r) => s.(owners := s.owners[r := s.owners[r].(phase := Stopped)])
    case Act(g, a) => Acted(keys, s, g, a)
    case Die(c) => s.(dead := s.dead + {c}, locks := Orphaned(s.locks, c))
  }

  /** The state a sequence of events reaches, if each is possible when it comes. */
  function Run(keys: seq<int>, es: seq<Event>): Option<State> {
    if es == [] then Some(NOTHING)
    else match Run(keys, es[..|es| - 1])
      case None => None
      case Some(s) => if Enabled(keys, s, es[|es| - 1]) then Some(Next(keys, s, es[|es| - 1])) else None
  }

  // ---- at most one pass, plus the dead ---------------------------------------------------------------

  /** The passes of one key that are running at the same moment. */
  function Overlapping(keys: seq<int>, at: map<Goroutine, Place>, key: int): set<Goroutine> {
    set g | g in at && g.family < |keys| && keys[g.family] == key && at[g].RunsPass?
  }

  ghost predicate ExclusiveConns(at: map<Goroutine, Place>) {
    forall g, h :: g in at && h in at && g != h && at[g].Holds() && at[h].Holds() ==> at[g].conn != at[h].conn
  }

  ghost predicate Owns(keys: seq<int>, locks: map<int, Lock>, family: nat, c: nat)
    requires family < |keys|
  {
    keys[family] in locks && locks[keys[family]].conn == c
  }

  /** A pass whose connection is alive owns the lock it runs under. */
  ghost predicate LiveOwns(keys: seq<int>, s: State) {
    forall g :: g in s.at && g.family < |keys| && s.at[g].RunsPass? && s.at[g].conn !in s.dead
                ==> Owns(keys, s.locks, g.family, s.at[g].conn)
  }

  /** The locks other sessions hold are as they were. */
  ghost predicate OthersKeep(before: map<int, Lock>, after: map<int, Lock>, c: nat) {
    forall k :: k in before && before[k].conn != c ==> k in after && after[k] == before[k]
  }

  lemma HolderMoves(keys: seq<int>, s: State, t: State, g: Goroutine, place: Place)
    requires ExclusiveConns(s.at) && LiveOwns(keys, s) && g in s.at && s.at[g].Holds()
    requires t.at == s.at[g := place] && t.dead == s.dead && OthersKeep(s.locks, t.locks, s.at[g].conn)
    requires place.Holds() ==> place.conn == s.at[g].conn
    requires place.RunsPass? && g.family < |keys| ==> Owns(keys, t.locks, g.family, place.conn)
    ensures ExclusiveConns(t.at) && LiveOwns(keys, t)
  {
    forall h | h in t.at && h.family < |keys| && t.at[h].RunsPass? && t.at[h].conn !in t.dead
      ensures Owns(keys, t.locks, h.family, t.at[h].conn)
    {
      if h != g {
        assert s.at[h] == t.at[h] && Owns(keys, s.locks, h.family, s.at[h].conn);
        assert s.at[h].Holds() && s.at[h].conn != s.at[g].conn;
        var k := keys[h.family];
        assert k in s.locks && s.locks[k].conn != s.at[g].conn;
        assert t.locks[k] == s.locks[k];
      }
    }
  }

  lemma NonHolderMoves(keys: seq<int>, s: State, t: State, g: Goroutine, place: Place)
    requires ExclusiveConns(s.at) && LiveOwns(keys, s)
    requires t.at == s.at[g := place] && t.dead == s.dead && t.locks == s.locks
    requires !place.RunsPass? && (place.Holds() ==> Free(s.at, place.conn))
    ensures ExclusiveConns(t.at) && LiveOwns(keys, t)
  {
  }

  lemma LocksOfOthers(locks: map<int, Lock>, key: int, c: nat)
    ensures OthersKeep(locks, locks, c) && OthersKeep(locks, Unlocked(locks, key, c), c)
    ensures Grants(locks, key, c) ==> OthersKeep(locks, Relock(locks, key, c), c)
  {
  }

  lemma DeathKeepsOwnership(keys: seq<int>, s: State, t: State, c: nat)
    requires LiveOwns(keys, s) && t.at == s.at && t.dead == s.dead + {c} && t.locks == Orphaned(s.locks, c)
    ensures LiveOwns(keys, t)
  {
  }

  lemma ActKeepsOwnership(keys: seq<int>, s: State, g: Goroutine, a: Action)
    requires g.family < |keys| && CanAct(keys, s, g, a) && ExclusiveConns(s.at) && LiveOwns(keys, s)
    ensures ExclusiveConns(Acted(keys, s, g, a).at) && LiveOwns(keys, Acted(keys, s, g, a))
  {
    hide ExclusiveConns, LiveOwns, OthersKeep, Free, Unlocked, Relock;
    var t := Acted(keys, s, g, a);
    if s.at[g].Holds() {
      LocksOfOthers(s.locks, keys[g.family], s.at[g].conn);
      Relocked(s.locks, keys[g.family], s.at[g].conn);
      HolderMoves(keys, s, t, g, t.at[g]);
    } else {
      NonHolderMoves(keys, s, t, g, t.at[g]);
    }
  }

  lemma Relocked(locks: map<int, Lock>, key: int, c: nat)
    ensures key in Relock(locks, key, c) && Relock(locks, key, c)[key].conn == c
  {
  }

  lemma StepKeepsOwnership(keys: seq<int>, s: State, e: Event)
    requires Enabled(keys, s, e) && ExclusiveConns(s.at) && LiveOwns(keys, s)
    ensures ExclusiveConns(Next(keys, s, e).at) && LiveOwns(keys, Next(keys, s, e))
  {
    hide CanAct, Acted, Free, Grants, Orphaned;
    var t := Next(keys, s, e);
    match e
    case Act(g, a) => ActKeepsOwnership(keys, s, g, a);
    case Launch(r) => NonHolderMoves(keys, s, t, Goroutine(r, s.owners[r].phase.next), InPass);
    case Die(c) => DeathKeepsOwnership(keys, s, t, c);
    case _ =>
  }

  lemma {:induction false} RunKeepsOwnership(keys: seq<int>, es: seq<Event>)
    requires Run(keys, es).Some?
    ensures ExclusiveConns(Run(keys, es).value.at) && LiveOwns(keys, Run(keys, es).value)
  {
    hide Enabled, Next, ExclusiveConns, LiveOwns;
    if es == [] {
      NothingOwned(keys);
    } else {
      RunKeepsOwnership(keys, es[..|es| - 1]);
      StepKeepsOwnership(keys, Run(keys, es[..|es| - 1]).value, es[|es| - 1]);
    }
  }

  lemma NothingOwned(keys: seq<int>)
    ensures ExclusiveConns(NOTHING.at) && LiveOwns(keys, NOTHING)
  {
  }

  /** Any members of a set with distinct images inside another are no more than its members. */
  lemma {:induction false} Injected(a: set<Goroutine>, s: State, b: set<nat>)
    requires forall g :: g in a ==> g in s.at && s.at[g].Holds() && s.at[g].conn in b
    requires ExclusiveConns(s.at)
    ensures |a| <= |b|
    decreases |a|
  {
    if a != {} {
      var g :| g in a;
      Injected(a - {g}, s, b - {s.at[g].conn});
    }
  }

  /** Overlapping passes of one family number at most one plus the lock connections that have died: all but
      one of them have lost their own.  With no deaths this is mutual exclusion. */
  lemma OverlapBound(keys: seq<int>, es: seq<Event>, key: int)
    requires Run(keys, es).Some?
    ensures var s := Run(keys, es).value;
            |Overlapping(keys, s.at, key)| <= 1 + |s.dead|
            && (forall g, h :: g in Overlapping(keys, s.at, key) && h in Overlapping(keys, s.at, key)
                               && s.at[g].conn !in s.dead && s.at[h].conn !in s.dead
                               ==> g == h)
  {
    RunKeepsOwnership(keys, es);
    var s := Run(keys, es).value;
    hide Run;
    var owner := if key in s.locks then {s.locks[key].conn} else {};
    Injected(Overlapping(keys, s.at, key), s, s.dead + owner);
    assert |s.dead + owner| <= |s.dead| + |owner|;
  }

  // ---- start and stop ------------------------------------------------------------------------------------

  predicate IsLive(at: map<Goroutine, Place>, g: Goroutine) { g in at && !at[g].Exited? }

  /** The family goroutines of one replica that have been launched and have not returned. */
  function LiveCount(at: map<Goroutine, Place>, r: nat, families: nat): nat {
    if families == 0 then 0
    else LiveCount(at, r, families - 1) + if IsLive(at, Goroutine(r, families - 1)) then 1 else 0
  }

  function Launched(keys: seq<int>, phase: Phase): nat { if phase.Starting? then phase.next else |keys| }

  /** The WaitGroup counts exactly the goroutines that can still do something. */
  ghost predicate AccountedFor(keys: seq<int>, s: State, r: nat)
    requires r in s.owners
  {
    && Launched(keys, s.owners[r].phase) <= |keys|
    && s.owners[r].wg == LiveCount(s.at, r, |keys|)
    && (s.owners[r].phase.Stopped? ==> s.owners[r].wg == 0)
    && (forall g :: g in s.at && g.replica == r ==> g.family < Launched(keys, s.owners[r].phase))
  }

  ghost predicate Accounted(keys: seq<int>, s: State) {
    && (forall g :: g in s.at ==> g.replica in s.owners)
    && (forall r :: r in s.owners ==> AccountedFor(keys, s, r))
  }

  lemma {:induction false} CountMoves(at: map<Goroutine, Place>, g: Goroutine, place: Place, r: nat, families: nat)
    ensures LiveCount(at[g := place], r, families)
            == LiveCount(at, r, families)
               + (if g.replica == r && g.family < families then
                    (if place.Exited? then 0 else 1) - (if IsLive(at, g) then 1 else 0)
                  else 0)
  {
    if families > 0 { CountMoves(at, g, place, r, families - 1); }
  }

  lemma {:induction false} CountNone(at: map<Goroutine, Place>, r: nat, families: nat)
    requires forall g :: g in at ==> g.replica != r
    ensures LiveCount(at, r, families) == 0
  {
    if families > 0 { CountNone(at, r, families - 1); }
  }

  lemma {:induction false} CountZero(at: map<Goroutine, Place>, r: nat, families: nat)
    requires LiveCount(at, r, families) == 0
    ensures forall f: nat :: f < families ==> !IsLive(at, Goroutine(r, f))
  {
    if families > 0 { CountZero(at, r, families - 1); }
  }

  lemma {:induction false} CountsOne(at: map<Goroutine, Place>, g: Goroutine, families: nat)
    requires IsLive(at, g) && g.family < families
    ensures LiveCount(at, g.replica, families) > 0
  {
    if g.family < families - 1 { CountsOne(at, g, families - 1); }
  }

  /** A goroutine leaves the count as it leaves its loop, and in no other move. */
  lemma MoveKeepsAccounts(keys: seq<int>, s: State, t: State, g: Goroutine, place: Place)
    requires Accounted(keys, s) && IsLive(s.at, g) && g.family < |keys| && t.at == s.at[g := place]
    requires var o := s.owners[g.replica];
             t.owners == if place.Exited? then s.owners[g.replica := o.(wg := o.wg - 1)] else s.owners
    requires place.Exited? ==> s.owners[g.replica].phase.Stopping?
    ensures Accounted(keys, t)
  {
    hide LiveCount;
    forall r | r in t.owners ensures AccountedFor(keys, t, r) {
      assert AccountedFor(keys, s, r);
      CountMoves(s.at, g, place, r, |keys|);
    }
  }

  lemma ActKeepsAccounts(keys: seq<int>, s: State, g: Goroutine, a: Action)
    requires g.family < |keys| && CanAct(keys, s, g, a) && Accounted(keys, s)
    ensures Accounted(keys, Acted(keys, s, g, a))
  {
    hide Relock, Unlocked, Grants, Free, Accounted, LiveCount;
    var t := Acted(keys, s, g, a);
    MoveKeepsAccounts(keys, s, t, g, t.at[g]);
  }

  lemma LaunchKeepsAccounts(keys: seq<int>, s: State, q: nat)
    requires Enabled(keys, s, Launch(q)) && Accounted(keys, s)
    ensures Accounted(keys, Next(keys, s, Launch(q)))
  {
    hide LiveCount;
    var t := Next(keys, s, Launch(q));
    forall r | r in t.owners ensures AccountedFor(keys, t, r) {
      assert AccountedFor(keys, s, r) && AccountedFor(keys, s, q);
      CountMoves(s.at, Goroutine(q, s.owners[q].phase.next), InPass, r, |keys|);
    }
  }

  lemma BootKeepsAccounts(keys: seq<int>, s: State, q: nat)
    requires Enabled(keys, s, Boot(q)) && Accounted(keys, s)
    ensures Accounted(keys, Next(keys, s, Boot(q)))
  {
    hide LiveCount;
    CountNone(s.at, q, |keys|);
    forall r | r in s.owners && r != q ensures AccountedFor(keys, Next(keys, s, Boot(q)), r) {
      assert AccountedFor(keys, s, r);
    }
  }

  lemma PhaseKeepsAccounts(keys: seq<int>, s: State, e: Event)
    requires Enabled(keys, s, e) && Accounted(keys, s) && (e.Cancel? || e.WaitReturns? || e.Die?)
    ensures Accounted(keys, Next(keys, s, e))
  {
    hide LiveCount, Orphaned;
    var t := Next(keys, s, e);
    forall r | r in t.owners ensures AccountedFor(keys, t, r) { assert AccountedFor(keys, s, r); }
  }

  lemma StepKeepsAccounts(keys: seq<int>, s: State, e: Event)
    requires Enabled(keys, s, e) && Accounted(keys, s)
    ensures Accounted(keys, Next(keys, s, e))
  {
    hide CanAct, Acted, Accounted;
    match e
    case Act(g, a) => ActKeepsAccounts(keys, s, g, a);
    case Launch(q) => LaunchKeepsAccounts(keys, s, q);
    case Boot(q) => BootKeepsAccounts(keys, s, q);
    case _ => PhaseKeepsAccounts(keys, s, e);
  }

  lemma {:induction false} RunKeepsAccounts(keys: seq<int>, es: seq<Event>)
    requires Run(keys, es).Some?
    ensures Accounted(keys, Run(keys, es).value)
  {
    hide Enabled, Next, Accounted;
    if es == [] {
      NothingAccounted(keys);
    } else {
      RunKeepsAccounts(keys, es[..|es| - 1]);
      StepKeepsAccounts(keys, Run(keys, es[..|es| - 1]).value, es[|es| - 1]);
    }
  }

  lemma NothingAccounted(keys: seq<int>)
    ensures Accounted(keys, NOTHING)
  {
  }

  /** Whose move an event is. */
  predicate MoveOf(e: Event, r: nat) {
    match e
    case Boot(q) => q == r
    case Launch(q) => q == r
    case Cancel(q) => q == r
    case WaitReturns(q) => q == r
    case Act(g, _) => g.replica == r
    case Die(_) => false
  }

  /** Once stop has returned, no pass of that replica is running, none of its goroutines holds a connection,
      and nothing it could do is possible any more. */
  lemma StopIsFinal(keys: seq<int>, es: seq<Event>, r: nat)
    requires Run(keys, es).Some?
    ensures var s := Run(keys, es).value;
            HasStopped(s, r) ==>
              (forall g :: g in s.at && g.replica == r ==> s.at[g].Exited?)
              && (forall e :: MoveOf(e, r) ==> !Enabled(keys, s, e))
  {
    RunKeepsAccounts(keys, es);
    hide Run;
    var s := Run(keys, es).value;
    if HasStopped(s, r) {
      assert AccountedFor(keys, s, r);
      CountZero(s.at, r, |keys|);
      forall g | g in s.at && g.replica == r ensures s.at[g].Exited? {
        assert !IsLive(s.at, Goroutine(r, g.family)) && g == Goroutine(r, g.family);
      }
    }
  }

  ghost predicate HasStopped(s: State, r: nat) { r in s.owners && s.owners[r].phase.Stopped? }

  lemma StepStaysStopped(keys: seq<int>, s: State, e: Event, r: nat)
    requires Enabled(keys, s, e) && HasStopped(s, r)
    ensures HasStopped(Next(keys, s, e), r)
  {
  }

  /** And it stays so, whatever the other replicas go on to do. */
  lemma {:induction false} StopLasts(keys: seq<int>, es: seq<Event>, more: seq<Event>, r: nat)
    requires Run(keys, es).Some? && HasStopped(Run(keys, es).value, r) && Run(keys, es + more).Some?
    ensures HasStopped(Run(keys, es + more).value, r)
  {
    hide Enabled, Next, HasStopped;
    if more == [] {
      assert es + more == es;
    } else {
      assert (es + more)[..|es + more| - 1] == es + more[..|more| - 1];
      StopLasts(keys, es, more[..|more| - 1], r);
      StepStaysStopped(keys, Run(keys, es + more[..|more| - 1]).value, more[|more| - 1], r);
    }
  }

  /** Before it returns, stop waits: as long as one of the replica's goroutines has not left, it cannot. */
  lemma StopWaits(keys: seq<int>, es: seq<Event>, g: Goroutine)
    requires Run(keys, es).Some? && IsLive(Run(keys, es).value.at, g)
    ensures !Enabled(keys, Run(keys, es).value, WaitReturns(g.replica))
  {
    RunKeepsAccounts(keys, es);
    var s := Run(keys, es).value;
    hide Run;
    assert AccountedFor(keys, s, g.replica);
    CountsOne(s.at, g, |keys|);
  }

  // ---- a lone replica never skips ------------------------------------------------------------------------

  /** A lock left behind: an unlock that failed on a live session, or a grant whose answer was lost. */
  predicate Leaks(s: State, e: Event) {
    e.Act? && e.who in s.at &&
    match e.action
    case UnlockFails => s.at[e.who].Unlocks? && s.at[e.who].conn !in s.dead
    case TryFails(granted) => granted
    case _ => false
  }

  /** The runs in which one replica is alone and every unlock it sends to a live session succeeds. */
  ghost predicate Lone(keys: seq<int>, es: seq<Event>, r: nat) {
    Run(keys, es).Some?
    && (forall i :: 0 <= i < |es| ==> es[i].Boot? ==> es[i].replica == r)
    && (forall i {:trigger es[i]} :: 0 <= i < |es| ==> (Run(keys, es[..i]).Some? ==> !Leaks(Run(keys, es[..i]).value, es[i])))
  }

  /** Whoever is not running a pass or about to unlock has left its family's lock free; whoever is has it
      once, unless its session is dead. */
  ghost predicate TidyAt(keys: seq<int>, s: State, g: Goroutine)
    requires g.family < |keys|
  {
    if g in s.at && (s.at[g].RunsPass? || s.at[g].Unlocks?) then
      keys[g.family] in s.locks ==> s.locks[keys[g.family]] == Lock(s.at[g].conn, 1) && s.at[g].conn !in s.dead
    else keys[g.family] !in s.locks
  }

  ghost predicate Tidy(keys: seq<int>, s: State, r: nat) {
    && (forall g :: g in s.at ==> g.replica == r && r in s.owners)
    && (forall q :: q in s.owners ==> q == r)
    && (forall f: nat :: f < |keys| ==> TidyAt(keys, s, Goroutine(r, f)))
    && s.skipped == []
  }

  lemma ActKeepsTidy(keys: seq<int>, s: State, g: Goroutine, a: Action, r: nat)
    requires Distinct(keys) && g.family < |keys| && CanAct(keys, s, g, a) && Tidy(keys, s, r) && !Leaks(s, Act(g, a))
    ensures Tidy(keys, Acted(keys, s, g, a), r)
  {
    var t := Acted(keys, s, g, a);
    assert TidyAt(keys, s, g);
    forall f: nat | f < |keys| ensures TidyAt(keys, t, Goroutine(r, f)) {
      assert TidyAt(keys, s, Goroutine(r, f));
    }
  }

  lemma StepKeepsTidy(keys: seq<int>, s: State, e: Event, r: nat)
    requires Distinct(keys) && Enabled(keys, s, e) && Tidy(keys, s, r) && !Leaks(s, e)
    requires (e.Boot? ==> e.replica == r) && Accounted(keys, s)
    ensures Tidy(keys, Next(keys, s, e), r)
  {
    hide CanAct, Acted, LiveCount;
    var t := Next(keys, s, e);
    match e
    case Act(g, a) => ActKeepsTidy(keys, s, g, a, r);
    case Launch(q) =>
      assert AccountedFor(keys, s, r);
      forall f: nat | f < |keys| ensures TidyAt(keys, t, Goroutine(r, f)) {
        assert TidyAt(keys, s, Goroutine(r, f));
      }
    case _ =>
      forall f: nat | f < |keys| ensures TidyAt(keys, t, Goroutine(r, f)) {
        assert TidyAt(keys, s, Goroutine(r, f));
      }
  }

  lemma {:induction false} LoneStaysTidy(keys: seq<int>, es: seq<Event>, r: nat)
    requires Distinct(keys) && Lone(keys, es, r)
    ensures Tidy(keys, Run(keys, es).value, r)
  {
    hide Enabled, Next, Tidy, Leaks, Accounted, Distinct;
    if es == [] {
      NothingTidy(keys, r);
    } else {
      var before := es[..|es| - 1];
      LonePrefix(keys, es, r);
      LoneStaysTidy(keys, before, r);
      RunKeepsAccounts(keys, before);
      StepKeepsTidy(keys, Run(keys, before).value, es[|es| - 1], r);
    }
  }

  lemma LonePrefix(keys: seq<int>, es: seq<Event>, r: nat)
    requires es != [] && Lone(keys, es, r)
    ensures var before := es[..|es| - 1];
            Lone(keys, before, r) && !Leaks(Run(keys, before).value, es[|es| - 1])
            && (es[|es| - 1].Boot? ==> es[|es| - 1].replica == r)
  {
    hide Leaks, Enabled, Next;
    var before := es[..|es| - 1];
    assert es[|es| - 1].Boot? ==> es[|es| - 1].replica == r;
    forall i {:trigger before[i]} | 0 <= i < |before|
      ensures before[i] == es[i] && before[..i] == es[..i]
    {
    }
  }

  lemma NothingTidy(keys: seq<int>, r: nat)
    ensures Tidy(keys, NOTHING, r)
  {
  }

  lemma Extend(keys: seq<int>, es: seq<Event>, e: Event)
    requires Run(keys, es).Some? && Enabled(keys, Run(keys, es).value, e)
    ensures Run(keys, es + [e]) == Some(Next(keys, Run(keys, es).value, e))
  {
    hide Enabled, Next;
    assert (es + [e])[..|es + [e]| - 1] == es;
  }

  function Booted(n: nat): seq<Event> {
    if n == 0 then [Boot(0)] else Booted(n - 1) + [Launch(0)]
  }

  function BootedAt(n: nat): map<Goroutine, Place> {
    if n == 0 then map[] else BootedAt(n - 1)[Goroutine(0, n - 1) := InPass]
  }

  lemma {:induction false} RunBooted(keys: seq<int>, n: nat)
    requires n <= |keys|
    ensures Run(keys, Booted(n)) == Some(State(map[0 := Owner(Starting(n), n)], BootedAt(n), map[], map[], {}, []))
  {
    if n == 0 {
      Extend(keys, [], Boot(0));
      assert [] + [Boot(0)] == [Boot(0)];
    } else {
      RunBooted(keys, n - 1);
      Extend(keys, Booted(n - 1), Launch(0));
      assert map[0 := Owner(Starting(n - 1), n - 1)][0 := Owner(Starting(n), n)] == map[0 := Owner(Starting(n), n)];
    }
  }

  lemma {:induction false} BootedPlaces(n: nat)
    ensures forall g :: g in BootedAt(n) <==> g.replica == 0 && g.family < n
    ensures forall g :: g in BootedAt(n) ==> BootedAt(n)[g] == InPass
  {
    if n > 0 { BootedPlaces(n - 1); }
  }

  /** The three moves by which a goroutine tries for its lock on a connection of its own. */
  function Attempt(g: Goroutine, c: nat): seq<Event> { [Act(g, Call), Act(g, Acquired(c)), Act(g, Try)] }

  function Attempted(keys: seq<int>, s: State, g: Goroutine, c: nat): State
    requires g.family < |keys|
  {
    var key := keys[g.family];
    if Grants(s.locks, key, c) then
      s.(at := s.at[g := RunsPass(c)], home := s.home[c := g.replica], locks := Relock(s.locks, key, c))
    else s.(at := s.at[g := Releases(c)], home := s.home[c := g.replica], skipped := s.skipped + [g])
  }

  predicate MayAttempt(keys: seq<int>, s: State, g: Goroutine, c: nat) {
    && g.family < |keys| && g in s.at && s.at[g].InPass? && g.replica in s.owners
    && Free(s.at, c) && c !in s.home && c !in s.dead
  }

  lemma RunAttempt(keys: seq<int>, es: seq<Event>, s: State, g: Goroutine, c: nat)
    requires Run(keys, es) == Some(s) && MayAttempt(keys, s, g, c)
    ensures Run(keys, es + Attempt(g, c)) == Some(Attempted(keys, s, g, c))
  {
    hide Run, Relock, Grants;
    var e1 := es + [Act(g, Call)];
    var e2 := e1 + [Act(g, Acquired(c))];
    var e3 := e2 + [Act(g, Try)];
    Extend(keys, es, Act(g, Call));
    var s1 := Move(s, g, WantsConn);
    assert Run(keys, e1) == Some(s1);
    Extend(keys, e1, Act(g, Acquired(c)));
    var s2 := Move(s1, g, HasConn(c)).(home := s.home[c := g.replica]);
    assert Run(keys, e2) == Some(s2);
    Extend(keys, e2, Act(g, Try));
    assert s2.at[g := RunsPass(c)] == s.at[g := RunsPass(c)];
    assert s2.at[g := Releases(c)] == s.at[g := Releases(c)];
    assert es + Attempt(g, c) == e3;
  }

  /** One replica, two of its families wanting the same lock at once: the second drops its pass. */
  lemma SharedKeySkips(keys: seq<int>, i: nat, j: nat) returns (es: seq<Event>)
    requires i < j < |keys| && keys[i] == keys[j]
    ensures Lone(keys, es, 0) && Run(keys, es).value.skipped == [Goroutine(0, j)]
  {
    hide Run, Lone;
    var f, g := Goroutine(0, i), Goroutine(0, j);
    RunBooted(keys, |keys|);
    BootedPlaces(|keys|);
    var s := Run(keys, Booted(|keys|)).value;
    RunAttempt(keys, Booted(|keys|), s, f, 0);
    RunAttempt(keys, Booted(|keys|) + Attempt(f, 0), Attempted(keys, s, f, 0), g, 1);
    es := Booted(|keys|) + Attempt(f, 0) + Attempt(g, 1);
    BootedHarmless(|keys|);
    HarmlessIsLone(keys, es);
  }

  lemma HarmlessIsLone(keys: seq<int>, es: seq<Event>)
    requires Run(keys, es).Some? && forall k :: 0 <= k < |es| ==> Harmless(es[k])
    ensures Lone(keys, es, 0)
  {
    hide Run;
  }

  predicate Harmless(e: Event) {
    match e
    case Boot(r) => r == 0
    case Act(_, a) => !a.UnlockFails? && !a.TryFails?
    case _ => true
  }

  lemma {:induction false} BootedHarmless(n: nat)
    ensures forall k :: 0 <= k < |Booted(n)| ==> Harmless(Booted(n)[k])
  {
    if n > 0 { BootedHarmless(n - 1); }
  }

  /** The skips a lone replica counts over every run in which its unlocks succeed. */
  ghost predicate NeverSkips(keys: seq<int>) {
    forall es, r :: Lone(keys, es, r) ==> Run(keys, es).value.skipped == []
  }

  /** A lone replica, however often a family uses its one key, never counts a skip; and that is so exactly
      because no two families share a key. */
  lemma LoneNeverSkips(keys: seq<int>)
    ensures NeverSkips(keys) <==> Distinct(keys)
  {
    if Distinct(keys) {
      forall es, r | Lone(keys, es, r) ensures Run(keys, es).value.skipped == [] {
        hide Run, Lone;
        LoneStaysTidy(keys, es, r);
      }
    } else {
      hide Run, Lone;
      var i, j :| 0 <= i < j < |keys| && keys[i] == keys[j];
      var es := SharedKeySkips(keys, i, j);
      assert Lone(keys, es, 0);
    }
  }

  /** The shipped table: eight keys, all different, none of them the retired one. */
  lemma ShippedKeys()
    ensures Distinct(KEYS) && RETIRED_KEY !in KEYS && NeverSkips(KEYS)
  {
    LoneNeverSkips(KEYS);
  }

  // ---- locks, sessions and pools ------------------------------------------------------------------------

  /** Taking a lock once more and giving it back once changes nothing, however often the session has it. */
  lemma LockRoundTrip(locks: map<int, Lock>, key: int, c: nat)
    requires Grants(locks, key, c) && (key in locks ==> locks[key].depth >= 1)
    ensures Unlocked(Relock(locks, key, c), key, c) == locks
    ensures forall k :: k != key ==> (k in Relock(locks, key, c) <==> k in locks)
  {
  }

  /** Every lock is a live session's and held at least once. */
  ghost predicate LiveLocks(locks: map<int, Lock>, home: map<nat, nat>, dead: set<nat>) {
    forall k :: k in locks ==> locks[k].conn in home && locks[k].conn !in dead && locks[k].depth >= 1
  }

  /** A goroutine holds connections of its own replica's pool only. */
  ghost predicate OwnPools(at: map<Goroutine, Place>, home: map<nat, nat>) {
    forall g :: g in at && at[g].Holds() ==> at[g].conn in home && home[at[g].conn] == g.replica
  }

  ghost predicate Sessions(s: State) {
    LiveLocks(s.locks, s.home, s.dead) && OwnPools(s.at, s.home) && forall c :: c in s.dead ==> c in s.home
  }

  /** The pools only grow, and no session changes hands. */
  ghost predicate Keeps(before: map<nat, nat>, after: map<nat, nat>) {
    forall c :: c in before ==> c in after && after[c] == before[c]
  }

  lemma LockingKeepsLive(locks: map<int, Lock>, home: map<nat, nat>, dead: set<nat>, key: int, c: nat)
    requires LiveLocks(locks, home, dead)
    ensures c in home && c !in dead && Grants(locks, key, c) ==> LiveLocks(Relock(locks, key, c), home, dead)
    ensures LiveLocks(Unlocked(locks, key, c), home, dead) && LiveLocks(Orphaned(locks, c), home, dead + {c})
  {
  }

  lemma MovingKeepsPools(at: map<Goroutine, Place>, home: map<nat, nat>, after: map<nat, nat>, g: Goroutine, place: Place)
    requires OwnPools(at, home) && Keeps(home, after)
    requires place.Holds() ==> place.conn in after && after[place.conn] == g.replica
    ensures OwnPools(at[g := place], after)
  {
  }

  lemma ActKeepsSessions(keys: seq<int>, s: State, g: Goroutine, a: Action)
    requires g.family < |keys| && CanAct(keys, s, g, a) && Sessions(s)
    ensures Sessions(Acted(keys, s, g, a)) && Keeps(s.home, Acted(keys, s, g, a).home)
  {
    var t, place := Acted(keys, s, g, a), s.at[g];
    assert Keeps(s.home, t.home);
    assert place.Holds() ==> place.conn in s.home && s.home[place.conn] == g.replica;
    hide Free, Grants, Relock, Unlocked, OwnPools;
    if place.Holds() { LockingKeepsLive(s.locks, s.home, s.dead, keys[g.family], place.conn); }
    MovingKeepsPools(s.at, s.home, t.home, g, t.at[g]);
  }

  lemma StepKeepsSessions(keys: seq<int>, s: State, e: Event)
    requires Enabled(keys, s, e) && Sessions(s)
    ensures Sessions(Next(keys, s, e)) && Keeps(s.home, Next(keys, s, e).home)
  {
    hide CanAct, Acted, Orphaned, LiveLocks, OwnPools;
    match e
    case Act(g, a) => ActKeepsSessions(keys, s, g, a);
    case Launch(r) => MovingKeepsPools(s.at, s.home, s.home, Goroutine(r, s.owners[r].phase.next), InPass);
    case Die(c) => LockingKeepsLive(s.locks, s.home, s.dead, 0, c);
    case _ =>
  }

  /** So in every run: no lock outlives its session, and no session changes pools. */
  lemma {:induction false} LocksAreLive(keys: seq<int>, es: seq<Event>)
    requires Run(keys, es).Some?
    ensures Sessions(Run(keys, es).value)
  {
    hide Enabled, Next, Sessions, Keeps;
    if es == [] {
      NoSessions();
    } else {
      LocksAreLive(keys, es[..|es| - 1]);
      StepKeepsSessions(keys, Run(keys, es[..|es| - 1]).value, es[|es| - 1]);
    }
  }

  lemma NoSessions()
    ensures Sessions(NOTHING)
  {
  }

  lemma {:induction false} PoolsArePrivate(keys: seq<int>, es: seq<Event>, more: seq<Event>, c: nat)
    requires Run(keys, es).Some? && c in Run(keys, es).value.home && Run(keys, es + more).Some?
    ensures c in Run(keys, es + more).value.home && Run(keys, es + more).value.home[c] == Run(keys, es).value.home[c]
  {
    hide Enabled, Next, Sessions;
    if more == [] {
      assert es + more == es;
    } else {
      var before := es + more[..|more| - 1];
      assert (es + more)[..|es + more| - 1] == before;
      PoolsArePrivate(keys, es, more[..|more| - 1], c);
      LocksAreLive(keys, before);
      StepKeepsSessions(keys, Run(keys, before).value, more[|more| - 1]);
    }
  }

  // ---- what one pass leaves -----------------------------------------------------------------------------

  function WholePass(g: Goroutine, c: nat): seq<Event> {
    Attempt(g, c) + [Act(g, PassReturns), Act(g, Unlock), Act(g, Release)]
  }

  /** A goroutine that finds its lock free can always take it, run and give it back, and then nothing is left of the
      pass but a connection in its own pool. */
  lemma PassLeavesNoTrace(keys: seq<int>, es: seq<Event>, s: State, g: Goroutine, c: nat)
    requires Run(keys, es) == Some(s) && MayAttempt(keys, s, g, c) && keys[g.family] !in s.locks
    ensures Run(keys, es + WholePass(g, c)) == Some(s.(home := s.home[c := g.replica]))
  {
    hide Run, Relock;
    var key := keys[g.family];
    RunAttempt(keys, es, s, g, c);
    LockRoundTrip(s.locks, key, c);
    var e1 := es + Attempt(g, c);
    var s1 := Attempted(keys, s, g, c);
    Extend(keys, e1, Act(g, PassReturns));
    var e2 := e1 + [Act(g, PassReturns)];
    var s2 := Move(s1, g, Unlocks(c));
    assert Run(keys, e2) == Some(s2);
    Extend(keys, e2, Act(g, Unlock));
    var e3 := e2 + [Act(g, Unlock)];
    var s3 := Move(s2, g, Releases(c)).(locks := s.locks);
    assert Run(keys, e3) == Some(s3);
    Extend(keys, e3, Act(g, Release));
    assert s3.at[g := InPass] == s.at;
    assert es + WholePass(g, c) == e3 + [Act(g, Release)];
  }

  /** The two ways a lock is left behind: the answer to a grant is lost, or the unlock is. */
  function Leaking(g: Goroutine, c: nat, answer: bool): seq<Event> {
    if answer then [Act(g, Call), Act(g, Acquired(c)), Act(g, TryFails(true)), Act(g, Release)]
    else [Act(g, Call), Act(g, Acquired(c)), Act(g, Try), Act(g, PassReturns), Act(g, UnlockFails), Act(g, Release)]
  }

  lemma RunLostAnswer(keys: seq<int>, es: seq<Event>, s: State, g: Goroutine, c: nat)
    requires Run(keys, es) == Some(s) && MayAttempt(keys, s, g, c) && keys[g.family] !in s.locks
    ensures Run(keys, es + Leaking(g, c, true))
            == Some(s.(home := s.home[c := g.replica], locks := Relock(s.locks, keys[g.family], c)))
  {
    hide Run, Relock;
    var locks := Relock(s.locks, keys[g.family], c);
    Extend(keys, es, Act(g, Call));
    var e1, s1 := es + [Act(g, Call)], Move(s, g, WantsConn);
    assert Run(keys, e1) == Some(s1);
    Extend(keys, e1, Act(g, Acquired(c)));
    var e2, s2 := e1 + [Act(g, Acquired(c))], Move(s1, g, HasConn(c)).(home := s.home[c := g.replica]);
    assert Run(keys, e2) == Some(s2);
    Extend(keys, e2, Act(g, TryFails(true)));
    var e3, s3 := e2 + [Act(g, TryFails(true))], Move(s2, g, Releases(c)).(locks := locks);
    assert Run(keys, e3) == Some(s3);
    hide Free;
    Extend(keys, e3, Act(g, Release));
    assert s3.at[g := InPass] == s.at;
    assert es + Leaking(g, c, true) == e3 + [Act(g, Release)];
  }

  lemma RunLostUnlock(keys: seq<int>, es: seq<Event>, s: State, g: Goroutine, c: nat)
    requires Run(keys, es) == Some(s) && MayAttempt(keys, s, g, c) && keys[g.family] !in s.locks
    ensures Run(keys, es + Leaking(g, c, false))
            == Some(s.(home := s.home[c := g.replica], locks := Relock(s.locks, keys[g.family], c)))
  {
    hide Run, Relock;
    RunAttempt(keys, es, s, g, c);
    hide Free;
    var e1, s1 := es + Attempt(g, c), Attempted(keys, s, g, c);
    Extend(keys, e1, Act(g, PassReturns));
    var e2, s2 := e1 + [Act(g, PassReturns)], Move(s1, g, Unlocks(c));
    assert Run(keys, e2) == Some(s2);
    Extend(keys, e2, Act(g, UnlockFails));
    var e3, s3 := e2 + [Act(g, UnlockFails)], Move(s2, g, Releases(c));
    assert Run(keys, e3) == Some(s3);
    Extend(keys, e3, Act(g, Release));
    assert s3.at[g := InPass] == s.at;
    assert es + Leaking(g, c, false) == e3 + [Act(g, Release)];
  }

  /** Either way the condition of LoneNeverSkips is needed: after one such failure the only replica there is drops a
      pass, though its keys are distinct. */
  lemma LeakSkips(keys: seq<int>, answer: bool) returns (es: seq<Event>)
    requires keys != []
    ensures Run(keys, es).Some? && Run(keys, es).value.owners.Keys == {0} && Run(keys, es).value.dead == {}
    ensures Run(keys, es).value.skipped == [Goroutine(0, 0)]
  {
    hide Run;
    var g := Goroutine(0, 0);
    RunBooted(keys, |keys|);
    BootedPlaces(|keys|);
    var s := Run(keys, Booted(|keys|)).value;
    if answer { RunLostAnswer(keys, Booted(|keys|), s, g, 0); } else { RunLostUnlock(keys, Booted(|keys|), s, g, 0); }
    var e1 := Booted(|keys|) + Leaking(g, 0, answer);
    RunAttempt(keys, e1, Run(keys, e1).value, g, 1);
    es := e1 + Attempt(g, 1);
  }

  // ---- stop can return ----------------------------------------------------------------------------------

  /** How far a goroutine is from its exit. */
  function Distance(place: Place): nat {
    match place
    case Exited => 0
    case Select => 1
    case InPass => 2
    case WantsConn => 3
    case Releases(_) => 3
    case Unlocks(_) => 4
    case HasConn(_) => 4
    case RunsPass(_) => 5
  }

  /** The move that always gets it nearer. */
  function Homeward(place: Place): Action {
    match place
    case Select => Exit
    case InPass => EndPass
    case WantsConn => AcquireFails
    case HasConn(_) => TryFails(false)
    case RunsPass(_) => PassReturns
    case Unlocks(_) => UnlockFails
    case Releases(_) => Release
    case Exited => Exit
  }

  lemma {:induction false} DriveOut(keys: seq<int>, es: seq<Event>, g: Goroutine) returns (more: seq<Event>)
    requires Run(keys, es).Some? && g in Run(keys, es).value.at && g.family < |keys|
    requires g.replica in Run(keys, es).value.owners && Run(keys, es).value.owners[g.replica].phase.Stopping?
    ensures Run(keys, es + more).Some?
    ensures var s, t := Run(keys, es).value, Run(keys, es + more).value;
            && g.replica in t.owners && t.owners[g.replica].phase.Stopping? && g in t.at && t.at[g].Exited?
            && (forall h :: h in t.at <==> h in s.at) && (forall h :: h in s.at && h != g ==> t.at[h] == s.at[h])
    decreases Distance(Run(keys, es).value.at[g])
  {
    hide Run;
    var s := Run(keys, es).value;
    if s.at[g].Exited? {
      more := [];
      assert es + more == es;
    } else {
      var e := Act(g, Homeward(s.at[g]));
      Extend(keys, es, e);
      var rest := DriveOut(keys, es + [e], g);
      more := [e] + rest;
      assert es + more == es + [e] + rest;
    }
  }

  lemma {:induction false} DriveAllOut(keys: seq<int>, es: seq<Event>, r: nat, families: nat) returns (more: seq<Event>)
    requires Run(keys, es).Some? && families <= |keys|
    requires r in Run(keys, es).value.owners && Run(keys, es).value.owners[r].phase.Stopping?
    ensures Run(keys, es + more).Some?
    ensures var t := Run(keys, es + more).value;
            && r in t.owners && t.owners[r].phase.Stopping?
            && forall f: nat :: f < families ==> !IsLive(t.at, Goroutine(r, f))
  {
    hide Run;
    if families == 0 {
      more := [];
      assert es + more == es;
    } else {
      var first := DriveAllOut(keys, es, r, families - 1);
      var g := Goroutine(r, families - 1);
      if g in Run(keys, es + first).value.at {
        var rest := DriveOut(keys, es + first, g);
        more := first + rest;
        assert es + more == es + first + rest;
      } else {
        more := first;
      }
    }
  }

  lemma {:induction false} NoneLive(at: map<Goroutine, Place>, r: nat, families: nat)
    requires forall f: nat :: f < families ==> !IsLive(at, Goroutine(r, f))
    ensures LiveCount(at, r, families) == 0
  {
    if families > 0 { NoneLive(at, r, families - 1); }
  }

  lemma {:induction false} StartThenCancel(keys: seq<int>, es: seq<Event>, r: nat) returns (more: seq<Event>)
    requires Run(keys, es).Some? && r in Run(keys, es).value.owners
    requires var phase := Run(keys, es).value.owners[r].phase; phase.Starting? && phase.next <= |keys|
    ensures Run(keys, es + more).Some?
    ensures r in Run(keys, es + more).value.owners && Run(keys, es + more).value.owners[r].phase.Stopping?
    decreases |keys| - Run(keys, es).value.owners[r].phase.next
  {
    hide Run;
    if Run(keys, es).value.owners[r].phase.next == |keys| {
      Extend(keys, es, Cancel(r));
      more := [Cancel(r)];
    } else {
      Extend(keys, es, Launch(r));
      var rest := StartThenCancel(keys, es + [Launch(r)], r);
      more := [Launch(r)] + rest;
      assert es + more == es + [Launch(r)] + rest;
    }
  }

  /** Whether more events take the run on to the replica's stop. */
  ghost predicate StopsBy(keys: seq<int>, es: seq<Event>, more: seq<Event>, r: nat) {
    Run(keys, es + more).Some? && HasStopped(Run(keys, es + more).value, r)
  }

  lemma StoppedAlready(keys: seq<int>, es: seq<Event>, r: nat)
    requires Run(keys, es).Some? && r in Run(keys, es).value.owners && Run(keys, es).value.owners[r].phase.Stopped?
    ensures StopsBy(keys, es, [], r)
  {
    hide Run;
    assert es + [] == es;
  }

  lemma StopsLater(keys: seq<int>, es: seq<Event>, first: seq<Event>, rest: seq<Event>, r: nat)
    requires StopsBy(keys, es + first, rest, r)
    ensures StopsBy(keys, es, first + rest, r)
  {
    hide Run;
    assert es + first + rest == es + (first + rest);
  }

  lemma StopsFromStopping(keys: seq<int>, es: seq<Event>, r: nat) returns (more: seq<Event>)
    requires Run(keys, es).Some? && r in Run(keys, es).value.owners && Run(keys, es).value.owners[r].phase.Stopping?
    ensures StopsBy(keys, es, more, r)
  {
    var out := DriveAllOut(keys, es, r, |keys|);
    RunKeepsAccounts(keys, es + out);
    hide Run;
    var t := Run(keys, es + out).value;
    assert AccountedFor(keys, t, r);
    NoneLive(t.at, r, |keys|);
    Extend(keys, es + out, WaitReturns(r));
    more := out + [WaitReturns(r)];
    assert es + out + [WaitReturns(r)] == es + more;
  }

  lemma StartedLater(keys: seq<int>, es: seq<Event>, r: nat)
    requires Run(keys, es).Some? && r in Run(keys, es).value.owners
    ensures Launched(keys, Run(keys, es).value.owners[r].phase) <= |keys|
  {
    RunKeepsAccounts(keys, es);
    hide Run;
    assert AccountedFor(keys, Run(keys, es).value, r);
  }

  /** Stop can always return: whatever state a run has left a replica in, start's and stop's own moves and those of its
      goroutines, every one possible without a lock, a connection or another replica, lead to stop's return. */
  lemma StopCanReturn(keys: seq<int>, es: seq<Event>, r: nat)
    requires Run(keys, es).Some? && r in Run(keys, es).value.owners
    ensures exists more :: StopsBy(keys, es, more, r)
  {
    hide Run, HasStopped, StopsBy;
    StartedLater(keys, es, r);
    var phase := Run(keys, es).value.owners[r].phase;
    if phase.Stopped? {
      StoppedAlready(keys, es, r);
    } else if phase.Stopping? {
      var more := StopsFromStopping(keys, es, r);
    } else {
      var first := StartThenCancel(keys, es, r);
      var rest := StopsFromStopping(keys, es + first, r);
      StopsLater(keys, es, first, rest, r);
    }
  }

  // ---- the bound is tight -------------------------------------------------------------------------------

  /** n replicas each took the lock, lost its connection and are still running. */
  ghost predicate Piled(keys: seq<int>, s: State, n: nat)
    requires keys != []
  {
    && s.owners.Keys <= Below(n) && s.home.Keys <= Below(n) && s.dead == Below(n)
    && PlacesBelow(s.at, n)
    && s.locks == map[] && |Overlapping(keys, s.at, keys[0])| == n
  }

  ghost predicate PlacesBelow(at: map<Goroutine, Place>, n: nat) {
    forall g :: g in at ==> g.replica < n && g.family == 0 && (at[g].Holds() ==> at[g].conn < n)
  }

  function Below(n: nat): (b: set<nat>)
    ensures |b| == n && forall r: nat :: r in b <==> r < n
  {
    if n == 0 then {} else Below(n - 1) + {n - 1}
  }

  lemma PiledIsFresh(keys: seq<int>, s: State, n: nat)
    requires keys != [] && Piled(keys, s, n)
    ensures n !in s.owners && n !in s.home && n !in s.dead && s.locks == map[]
    ensures Free(s.at[Goroutine(n, 0) := InPass], n)
  {
    hide Overlapping;
    assert n !in s.owners.Keys && n !in s.home.Keys;
  }

  /** The state a replica's boot, first launch and first attempt lead to when the lock is free. */
  lemma TakesLock(keys: seq<int>, s: State, t: State, n: nat)
    requires keys != [] && s.locks == map[] && n !in s.owners
    requires t == s.(owners := s.owners[n := Owner(Starting(1), 1)], at := s.at[Goroutine(n, 0) := InPass])
    ensures var u := Attempted(keys, t, Goroutine(n, 0), n);
            u.dead == s.dead && n in u.home && u.at == s.at[Goroutine(n, 0) := RunsPass(n)]
            && u.owners.Keys == s.owners.Keys + {n} && u.home.Keys == s.home.Keys + {n}
            && u.locks == map[keys[0] := Lock(n, 1)]
  {
  }

  /** One more replica comes up and takes the lock the dead connections no longer hold. */
  lemma OneMore(keys: seq<int>, es: seq<Event>, n: nat) returns (more: seq<Event>)
    requires keys != [] && Run(keys, es).Some? && Piled(keys, Run(keys, es).value, n)
    ensures Run(keys, more).Some?
    ensures var s, t := Run(keys, es).value, Run(keys, more).value;
            t.dead == s.dead && n in t.home && t.at == s.at[Goroutine(n, 0) := RunsPass(n)]
            && t.owners.Keys == s.owners.Keys + {n} && t.home.Keys == s.home.Keys + {n}
            && t.locks == map[keys[0] := Lock(n, 1)]
  {
    hide Run, Piled, CanAct, Acted, Free, Relock, Grants, Attempted;
    var s, g := Run(keys, es).value, Goroutine(n, 0);
    PiledIsFresh(keys, s, n);
    var e1 := es + [Boot(n)];
    var e2 := e1 + [Launch(n)];
    Extend(keys, es, Boot(n));
    var s1 := s.(owners := s.owners[n := Owner(Starting(0), 0)]);
    assert Run(keys, e1) == Some(s1);
    Extend(keys, e1, Launch(n));
    var t := s.(owners := s.owners[n := Owner(Starting(1), 1)], at := s.at[g := InPass]);
    assert s1.owners[n := Owner(Starting(1), 1)] == t.owners;
    assert Run(keys, e2) == Some(t);
    RunAttempt(keys, e2, t, g, n);
    TakesLock(keys, s, t, n);
    more := e2 + Attempt(g, n);
  }

  lemma OverlapGrows(keys: seq<int>, s: State, t: State, n: nat)
    requires keys != [] && Piled(keys, s, n) && t.at == s.at[Goroutine(n, 0) := RunsPass(n)]
    ensures |Overlapping(keys, t.at, keys[0])| == n + 1
  {
    assert Overlapping(keys, t.at, keys[0]) == Overlapping(keys, s.at, keys[0]) + {Goroutine(n, 0)};
  }

  lemma OrphanedAlone(key: int, c: nat)
    ensures Orphaned(map[key := Lock(c, 1)], c) == map[]
  {
  }

  lemma OneMorePlace(at: map<Goroutine, Place>, n: nat)
    requires PlacesBelow(at, n)
    ensures PlacesBelow(at[Goroutine(n, 0) := RunsPass(n)], n + 1)
  {
  }

  lemma BelowNext(n: nat)
    ensures Below(n + 1) == Below(n) + {n}
  {
  }

  lemma DeathPiles(keys: seq<int>, s: State, t: State, u: State, n: nat)
    requires keys != [] && Piled(keys, s, n) && t.at == s.at[Goroutine(n, 0) := RunsPass(n)]
    requires t.owners.Keys == s.owners.Keys + {n} && t.home.Keys == s.home.Keys + {n} && t.dead == s.dead
    requires t.locks == map[keys[0] := Lock(n, 1)]
    requires u == t.(dead := t.dead + {n}, locks := Orphaned(t.locks, n))
    ensures Piled(keys, u, n + 1)
  {
    OverlapGrows(keys, s, t, n);
    OrphanedAlone(keys[0], n);
    OneMorePlace(s.at, n);
    BelowNext(n);
    hide Overlapping, PlacesBelow, Orphaned, Below;
  }

  lemma NothingPiled(keys: seq<int>)
    requires keys != []
    ensures Piled(keys, NOTHING, 0)
  {
    assert Overlapping(keys, NOTHING.at, keys[0]) == {};
  }

  lemma PiledUnlocked(keys: seq<int>, s: State, n: nat)
    requires keys != [] && Piled(keys, s, n)
    ensures n !in s.dead
  {
    hide Overlapping;
  }

  lemma {:induction false} Pile(keys: seq<int>, n: nat) returns (es: seq<Event>)
    requires keys != []
    ensures Run(keys, es).Some? && Piled(keys, Run(keys, es).value, n)
  {
    if n == 0 {
      es := [];
      NothingPiled(keys);
    } else {
      hide Overlapping, Piled, Orphaned;
      var before := Pile(keys, n - 1);
      var more := OneMore(keys, before, n - 1);
      hide Run;
      PiledUnlocked(keys, Run(keys, before).value, n - 1);
      Extend(keys, more, Die(n - 1));
      es := more + [Die(n - 1)];
      DeathPiles(keys, Run(keys, before).value, Run(keys, more).value, Run(keys, es).value, n - 1);
    }
  }

  /** No smaller bound will do: however many connections die, some run overlaps one more pass than that. */
  lemma OverlapIsTight(keys: seq<int>, n: nat)
    requires keys != []
    ensures exists es :: Run(keys, es).Some? && |Run(keys, es).value.dead| == n
                         && |Overlapping(keys, Run(keys, es).value.at, keys[0])| == n + 1
  {
    var es := Pile(keys, n);
    var more := OneMore(keys, es, n);
    hide Run;
    OverlapGrows(keys, Run(keys, es).value, Run(keys, more).value, n);
  }
}
