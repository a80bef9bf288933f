/** Requests routed to add-ons: any number of them at once, each passing its add-on's gate, taking one of the
    host's slots, registering a state of its own under a name of its own, running one guest and undoing all
    of it in reverse; interleaved with add-ons being loaded and removed. */
module Routing {
  import opened Wrappers
  import opened Numerals

  const SLOTS := 16
  const WRAP := 0x1_0000_0000_0000_0000

  /** nameRe, restricted to what the instance name relies on. */
  predicate NameChar(c: char) { 'a' <= c <= 'z' || '0' <= c <= '9' || c == '_' }

  predicate NameOk(name: string) {
    2 <= |name| <= 31 && 'a' <= name[0] <= 'z' && forall i :: 0 <= i < |name| ==> NameChar(name[i])
  }

  /** The counter is 64 bits wide. */
  function InstanceName(name: string, num: nat): string { name + "#" + Decimal(num % WRAP) }

  /** Whose answers a host call gets: an add-on's own, or those of the request one instance was made for.
      A request's state is a copy of the base its add-on's name led to. */
  datatype Answers = Base(load: nat) | Own(request: nat, load: nat)

  datatype Status = Loading | Serving | Leaving | Gone

  /** One loading of an add-on. `inside` and `sealed` are its gate; `cut` records a removal that stopped waiting. */
  datatype Load = Load(name: string, status: Status, inside: int, sealed: bool, cut: bool)

  datatype Stage =
    | Resolved | Entered | Slotted
    | Based(base: nat) | Numbered(base: nat, num: nat) | Registered(base: nat, num: nat) | Running(base: nat, num: nat)
  {
    predicate InGate() { !Resolved? }
    predicate HasSlot() { !Resolved? && !Entered? }
    predicate HasBase() { Based? || Numbered? || Registered? || Running? }
    predicate HasName() { Numbered? || Registered? || Running? }
    predicate HasState() { Registered? || Running? }
  }

  datatype Request = Request(load: nat, stage: Stage, leaving: bool)

  /** `busy` is the lifecycle act in progress, under the install mutex; `given` every instance name so far. */
  datatype State = State(
    loads: map<nat, Load>,
    busy: Option<nat>,
    requests: map<nat, Request>,
    states: map<string, Answers>,
    taken: int,
    given: seq<string>)

  const EMPTY := State(map[], None, map[], map[], 0, [])

  datatype Step = Enter | TakeSlot | LookUp | Number | Put | Instantiate | GiveUp | Unwind

  datatype Event =
    | BeginLoad(load: nat, name: string) | LoadFails(load: nat) | LoadOk(load: nat)
    | TakeOut(load: nat) | PutBack(load: nat) | Seal(load: nat) | Unload(load: nat)
    | Arrive(request: nat, load: nat)
    | Go(request: nat, step: Step)

  predicate CanGo(s: State, id: nat, step: Step) {
    id in s.requests && s.requests[id].load in s.loads &&
    var r := s.requests[id];
    match step
    case Enter => r.stage.Resolved?
    case TakeSlot => !r.leaving && r.stage.Entered? && s.taken < SLOTS
    case LookUp => !r.leaving && r.stage.Slotted? && s.loads[r.load].name in s.states
    case Number => !r.leaving && r.stage.Based?
    case Put => !r.leaving && r.stage.Numbered?
    case Instantiate => !r.leaving && r.stage.Registered?
    case GiveUp => !r.leaving && r.stage.InGate()
    case Unwind => r.leaving && r.stage.InGate()
  }

  predicate Enabled(s: State, e: Event) {
    match e
    case BeginLoad(k, name) =>
      s.busy.None? && k !in s.loads && NameOk(name)
      && (forall j :: j in s.loads && s.loads[j].name == name ==> s.loads[j].status.Gone?)
    case LoadFails(k) => s.busy == Some(k) && k in s.loads && s.loads[k].status.Loading?
    case LoadOk(k) => s.busy == Some(k) && k in s.loads && s.loads[k].status.Loading?
    case TakeOut(k) => s.busy.None? && k in s.loads && s.loads[k].status.Serving?
    case PutBack(k) => s.busy == Some(k) && k in s.loads && s.loads[k].status.Leaving? && !s.loads[k].sealed
    case Seal(k) => s.busy == Some(k) && k in s.loads && s.loads[k].status.Leaving?
    case Unload(k) => s.busy == Some(k) && k in s.loads && s.loads[k].status.Leaving? && s.loads[k].sealed
    case Arrive(id, k) => id !in s.requests && k in s.loads && s.loads[k].status.Serving?
    case Go(id, step) => CanGo(s, id, step)
  }

  function NameFor(loads: map<nat, Load>, r: Request): string
    requires r.load in loads && r.stage.HasName()
  {
    InstanceName(loads[r.load].name, r.stage.num)
  }

  function At(s: State, id: nat, stage: Stage): State
    requires id in s.requests
  {
    s.(requests := s.requests[id := s.requests[id].(stage := stage)])
  }

  function Inside(s: State, k: nat, change: int): map<nat, Load>
    requires k in s.loads
  {
    s.loads[k := s.loads[k].(inside := s.loads[k].inside + change)]
  }

  function Went(s: State, id: nat, step: Step): State
    requires CanGo(s, id, step)
  {
    var r := s.requests[id];
    match step
    case Enter =>
      if s.loads[r.load].sealed then s.(requests := s.requests - {id})
      else At(s, id, Entered).(loads := Inside(s, r.load, 1))
    case TakeSlot => At(s, id, Slotted).(taken := s.taken + 1)
    case LookUp => At(s, id, Based(s.states[s.loads[r.load].name].load))
    case Number =>
      var num := |s.given| + 1;
      At(s, id, Numbered(r.stage.base, num)).(given := s.given + [InstanceName(s.loads[r.load].name, num)])
    case Put => At(s, id, Registered(r.stage.base, r.stage.num)).(states := s.states[NameFor(s.loads, r) := Own(id, r.stage.base)])
    case Instantiate => At(s, id, Running(r.stage.base, r.stage.num))
    case GiveUp => s.(requests := s.requests[id := r.(leaving := true)])
    case Unwind =>
      match r.stage
      case Running(base, num) => At(s, id, Registered(base, num))
      case Registered(_, _) => At(s, id, Slotted).(states := s.states - {NameFor(s.loads, r)})
      case Entered => s.(requests := s.requests - {id}, loads := Inside(s, r.load, -1))
      case _ => At(s, id, Entered).(taken := s.taken - 1)
  }

  function Relabel(s: State, k: nat, status: Status): map<nat, Load>
    requires k in s.loads
  {
    s.loads[k := s.loads[k].(status := status)]
  }

  function Next(s: State, e: Event): State
    requires Enabled(s, e)
  {
    match e
    case BeginLoad(k, name) =>
      s.(loads := s.loads[k := Load(name, Loading, 0, false, false)], busy := Some(k), states := s.states[name := Base(k)])
    case LoadFails(k) => s.(loads := Relabel(s, k, Gone), busy := None, states := s.states - {s.loads[k].name})
    case LoadOk(k) => s.(loads := Relabel(s, k, Serving), busy := None)
    case TakeOut(k) => s.(loads := Relabel(s, k, Leaving), busy := Some(k))
    case PutBack(k) => s.(loads := Relabel(s, k, Serving), busy := None)
    case Seal(k) => s.(loads := s.loads[k := s.loads[k].(sealed := true)])
    case Unload(k) =>
      s.(loads := s.loads[k := s.loads[k].(status := Gone, cut := s.loads[k].inside > 0)], busy := None,
         states := s.states - {s.loads[k].name})
    case Arrive(id, k) => s.(requests := s.requests[id := Request(k, Resolved, false)])
    case Go(id, step) => Went(s, id, step)
  }

  function Run(es: seq<Event>): Option<State> {
    if es == [] then Some(EMPTY)
    else match Run(es[..|es| - 1])
      case None => None
      case Some(s) => if Enabled(s, es[|es| - 1]) then Some(Next(s, es[|es| - 1])) else None
  }

  // ---- names -------------------------------------------------------------------------------------------

  lemma HashComesAfter(a: string, x: string, n: nat)
    requires '#' !in a && n < |a + "#" + x| && (a + "#" + x)[n] == '#'
    ensures n >= |a|
  {
    assert forall i :: 0 <= i < |a| ==> (a + "#" + x)[i] == a[i];
  }

  lemma SplitAtHash(a: string, b: string, x: string, y: string)
    requires '#' !in a && '#' !in b && a + "#" + x == b + "#" + y
    ensures a == b && x == y
  {
    var s := a + "#" + x;
    assert s[|a|] == '#' && s[|b|] == '#';
    HashComesAfter(a, x, |b|);
    HashComesAfter(b, y, |a|);
    assert a == s[..|a|] && b == s[..|b|];
    assert x == s[|a| + 1..] && y == s[|b| + 1..];
  }

  lemma NameHasNoHash(name: string)
    requires NameOk(name)
    ensures '#' !in name
  {
  }

  /** Two instance names coincide exactly when both halves do: the same add-on, and counts that are the same
      64-bit number. */
  lemma InstanceNamesCoincide(a: string, b: string, m: nat, n: nat)
    requires NameOk(a) && NameOk(b)
    ensures InstanceName(a, m) == InstanceName(b, n) <==> a == b && m % WRAP == n % WRAP
  {
    NameHasNoHash(a);
    NameHasNoHash(b);
    if InstanceName(a, m) == InstanceName(b, n) {
      SplitAtHash(a, b, Decimal(m % WRAP), Decimal(n % WRAP));
      DecimalInjective(m % WRAP, n % WRAP);
    }
  }

  /** And none is a name a manifest could carry. */
  lemma InstanceNameIsNoAddon(a: string, m: nat, b: string)
    requires NameOk(b)
    ensures InstanceName(a, m) != b
  {
    NameHasNoHash(b);
    assert InstanceName(a, m)[|a|] == '#';
  }

  ghost predicate IsGiven(name: string, num: nat) { exists a :: NameOk(a) && name == InstanceName(a, num) }

  /** Every instance name so far was made from an add-on's name and its own place in the count. */
  ghost predicate Givens(given: seq<string>) {
    forall i: nat :: i < |given| ==> IsGiven(given[i], i + 1)
  }

  ghost predicate Homes(loads: map<nat, Load>, requests: map<nat, Request>) {
    && (forall k :: k in loads ==> NameOk(loads[k].name))
    && (forall id :: id in requests ==> requests[id].load in loads)
  }

  /** The numbers in use were all counted, each for one request. */
  ghost predicate Nums(requests: map<nat, Request>, count: nat) {
    && (forall id :: id in requests && requests[id].stage.HasName() ==> 1 <= requests[id].stage.num <= count)
    && (forall i, j :: i in requests && j in requests && i != j
                       && requests[i].stage.HasName() && requests[j].stage.HasName()
                       ==> requests[i].stage.num != requests[j].stage.num)
  }

  ghost predicate Numbers(s: State) {
    Givens(s.given) && Homes(s.loads, s.requests) && Nums(s.requests, |s.given|)
  }

  predicate SameNumber(requests: map<nat, Request>, id: nat, r: Request) {
    r.stage.HasName() ==>
      id in requests && requests[id].stage.HasName() && requests[id].stage.num == r.stage.num
  }

  lemma NumsMove(requests: map<nat, Request>, count: nat, id: nat, r: Request)
    requires Nums(requests, count) && SameNumber(requests, id, r)
    ensures Nums(requests[id := r], count)
  {
  }

  lemma NumsNext(requests: map<nat, Request>, count: nat, id: nat, r: Request)
    requires Nums(requests, count) && r.stage.HasName() && r.stage.num == count + 1
    ensures Nums(requests[id := r], count + 1)
  {
  }

  lemma NumsDrop(requests: map<nat, Request>, count: nat, id: nat)
    requires Nums(requests, count)
    ensures Nums(requests - {id}, count)
  {
  }

  lemma GoKeepsNumbers(s: State, id: nat, step: Step)
    requires CanGo(s, id, step) && Numbers(s)
    ensures Numbers(Went(s, id, step))
  {
    hide InstanceName, NameOk, Nums, IsGiven;
    var t := Went(s, id, step);
    if id !in t.requests {
      NumsDrop(s.requests, |s.given|, id);
    } else if step.Number? {
      NumsNext(s.requests, |s.given|, id, t.requests[id]);
      NextIsGiven(s.loads[s.requests[id].load].name, |s.given| + 1);
    } else {
      NumsMove(s.requests, |s.given|, id, t.requests[id]);
    }
  }

  lemma NextIsGiven(a: string, num: nat)
    requires NameOk(a)
    ensures IsGiven(InstanceName(a, num), num)
  {
  }

  lemma StepKeepsNumbers(s: State, e: Event)
    requires Enabled(s, e) && Numbers(s)
    ensures Numbers(Next(s, e))
  {
    hide InstanceName, CanGo, Went, Nums, Givens;
    match e
    case Go(id, step) => GoKeepsNumbers(s, id, step);
    case Arrive(id, k) => NumsMove(s.requests, |s.given|, id, Request(k, Resolved, false));
    case _ =>
  }

  // ---- the state map -------------------------------------------------------------------------------------

  ghost predicate OwnsState(loads: map<nat, Load>, r: Request, id: nat, states: map<string, Answers>)
    requires r.load in loads && r.stage.HasState()
  {
    NameFor(loads, r) in states && states[NameFor(loads, r)] == Own(id, r.stage.base)
  }

  ghost predicate Accounted(loads: map<nat, Load>, requests: map<nat, Request>, key: string, a: Answers) {
    match a
    case Base(k) => k in loads && loads[k].name == key && !loads[k].status.Gone?
    case Own(id, base) =>
      id in requests && requests[id].load in loads && requests[id].stage.HasState()
      && requests[id].stage.base == base && NameFor(loads, requests[id]) == key
  }

  /** The state map holds one entry for each add-on that is there and one for each registered request. */
  ghost predicate Table(loads: map<nat, Load>, requests: map<nat, Request>, states: map<string, Answers>) {
    && (forall id :: id in requests && requests[id].load in loads && requests[id].stage.HasState()
                     ==> OwnsState(loads, requests[id], id, states))
    && (forall key :: key in states ==> Accounted(loads, requests, key, states[key]))
    && (forall k :: k in loads && !loads[k].status.Gone?
                    ==> loads[k].name in states && states[loads[k].name] == Base(k))
  }

  predicate SameState(requests: map<nat, Request>, id: nat, r: Request) {
    if id in requests && requests[id].stage.HasState() then
      r.stage.HasState() && r.load == requests[id].load && r.stage.base == requests[id].stage.base
      && r.stage.num == requests[id].stage.num
    else !r.stage.HasState()
  }

  lemma TableMove(loads: map<nat, Load>, requests: map<nat, Request>, states: map<string, Answers>, id: nat, r: Request)
    requires Table(loads, requests, states) && SameState(requests, id, r)
    ensures Table(loads, requests[id := r], states)
  {
    hide InstanceName;
    var after := requests[id := r];
    forall key | key in states ensures Accounted(loads, after, key, states[key]) {
      assert Accounted(loads, requests, key, states[key]);
    }
    forall i | i in after && after[i].load in loads && after[i].stage.HasState()
      ensures OwnsState(loads, after[i], i, states)
    {
      assert OwnsState(loads, requests[i], i, states);
    }
  }

  lemma TableDrop(loads: map<nat, Load>, requests: map<nat, Request>, states: map<string, Answers>, id: nat)
    requires Table(loads, requests, states) && (id in requests ==> !requests[id].stage.HasState())
    ensures Table(loads, requests - {id}, states)
  {
    hide InstanceName, OwnsState;
    forall key | key in states ensures Accounted(loads, requests - {id}, key, states[key]) {
      assert Accounted(loads, requests, key, states[key]);
    }
  }

  lemma TablePut(loads: map<nat, Load>, requests: map<nat, Request>, states: map<string, Answers>, id: nat, r: Request)
    requires Table(loads, requests, states) && id in requests && !requests[id].stage.HasState()
    requires r.load in loads && r.stage.HasState() && NameFor(loads, r) !in states
    ensures Table(loads, requests[id := r], states[NameFor(loads, r) := Own(id, r.stage.base)])
  {
    hide InstanceName;
    var after := states[NameFor(loads, r) := Own(id, r.stage.base)];
    forall key | key in after ensures Accounted(loads, requests[id := r], key, after[key]) {
      if key in states { assert Accounted(loads, requests, key, states[key]); }
    }
    forall i | i in requests && i != id && requests[i].load in loads && requests[i].stage.HasState()
      ensures OwnsState(loads, requests[i], i, after)
    {
      assert OwnsState(loads, requests[i], i, states);
    }
  }

  lemma TableTake(loads: map<nat, Load>, requests: map<nat, Request>, states: map<string, Answers>, id: nat, r: Request)
    requires Table(loads, requests, states) && id in requests && requests[id].load in loads
    requires requests[id].stage.HasState() && !r.stage.HasState()
    ensures Table(loads, requests[id := r], states - {NameFor(loads, requests[id])})
  {
    hide InstanceName;
    var gone := NameFor(loads, requests[id]);
    assert OwnsState(loads, requests[id], id, states);
    forall key | key in states - {gone} ensures Accounted(loads, requests[id := r], key, states[key]) {
      assert Accounted(loads, requests, key, states[key]);
    }
    forall i | i in requests && i != id && requests[i].load in loads && requests[i].stage.HasState()
      ensures OwnsState(loads, requests[i], i, states - {gone})
    {
      assert OwnsState(loads, requests[i], i, states);
    }
  }

  predicate SameName(loads: map<nat, Load>, k: nat, l: Load) {
    k in loads && loads[k].name == l.name && (loads[k].status.Gone? <==> l.status.Gone?)
  }

  lemma TableRelabel(loads: map<nat, Load>, requests: map<nat, Request>, states: map<string, Answers>, k: nat, l: Load)
    requires Table(loads, requests, states) && SameName(loads, k, l)
    ensures Table(loads[k := l], requests, states)
  {
    hide InstanceName;
    forall key | key in states ensures Accounted(loads[k := l], requests, key, states[key]) {
      assert Accounted(loads, requests, key, states[key]);
    }
    forall i | i in requests && requests[i].load in loads && requests[i].stage.HasState()
      ensures OwnsState(loads[k := l], requests[i], i, states)
    {
      assert OwnsState(loads, requests[i], i, states);
    }
  }

  lemma TableBegin(loads: map<nat, Load>, requests: map<nat, Request>, states: map<string, Answers>, k: nat, l: Load)
    requires Table(loads, requests, states) && Homes(loads, requests) && k !in loads && l.name !in states && !l.status.Gone?
    ensures Table(loads[k := l], requests, states[l.name := Base(k)])
  {
    hide InstanceName, NameOk;
    var after := states[l.name := Base(k)];
    forall key | key in after ensures Accounted(loads[k := l], requests, key, after[key]) {
      if key in states { assert Accounted(loads, requests, key, states[key]); }
    }
    forall i | i in requests && requests[i].stage.HasState()
      ensures OwnsState(loads[k := l], requests[i], i, after)
    {
      assert OwnsState(loads, requests[i], i, states);
    }
  }

  lemma TableEnd(loads: map<nat, Load>, requests: map<nat, Request>, states: map<string, Answers>, k: nat, l: Load)
    requires Table(loads, requests, states) && Homes(loads, requests)
    requires k in loads && !loads[k].status.Gone? && l.name == loads[k].name && l.status.Gone?
    ensures Table(loads[k := l], requests, states - {l.name})
  {
    hide InstanceName, NameOk;
    var after := states - {l.name};
    forall key | key in after ensures Accounted(loads[k := l], requests, key, after[key]) {
      assert Accounted(loads, requests, key, states[key]);
    }
    forall i | i in requests && requests[i].stage.HasState()
      ensures OwnsState(loads[k := l], requests[i], i, after)
    {
      assert OwnsState(loads, requests[i], i, states);
      assert states[l.name] == Base(k);
    }
  }

  /** A name just counted is not in the map yet, while the counter has not come round. */
  lemma FreshName(s: State, id: nat)
    requires Numbers(s) && Table(s.loads, s.requests, s.states) && |s.given| < WRAP
    requires id in s.requests && s.requests[id].stage.Numbered?
    ensures NameFor(s.loads, s.requests[id]) !in s.states
  {
    var r := s.requests[id];
    var key := NameFor(s.loads, r);
    if key in s.states {
      assert Accounted(s.loads, s.requests, key, s.states[key]);
      match s.states[key]
      case Base(k) => InstanceNameIsNoAddon(s.loads[r.load].name, r.stage.num, s.loads[k].name);
      case Own(j, _) =>
        InstanceNamesCoincide(s.loads[r.load].name, s.loads[s.requests[j].load].name, r.stage.num, s.requests[j].stage.num);
    }
  }

  lemma NoSuchAddon(s: State, name: string)
    requires Numbers(s) && Table(s.loads, s.requests, s.states) && NameOk(name)
    requires forall j :: j in s.loads && s.loads[j].name == name ==> s.loads[j].status.Gone?
    ensures name !in s.states
  {
    if name in s.states {
      assert Accounted(s.loads, s.requests, name, s.states[name]);
      match s.states[name]
      case Base(k) =>
      case Own(j, _) => InstanceNameIsNoAddon(s.loads[s.requests[j].load].name, s.requests[j].stage.num, name);
    }
  }

  ghost predicate Tabled(s: State) { Table(s.loads, s.requests, s.states) }

  lemma GoKeepsTable(s: State, id: nat, step: Step)
    requires CanGo(s, id, step) && Numbers(s) && Tabled(s) && |s.given| < WRAP
    ensures Tabled(Went(s, id, step))
  {
    hide InstanceName, Table, Givens, Nums, NameOk;
    var r := s.requests[id];
    var t := Went(s, id, step);
    if id !in t.requests {
      TableDrop(s.loads, s.requests, s.states, id);
      if step.Unwind? { TableRelabel(s.loads, s.requests - {id}, s.states, r.load, t.loads[r.load]); }
    } else if step.Put? {
      FreshName(s, id);
      TablePut(s.loads, s.requests, s.states, id, t.requests[id]);
    } else if step.Unwind? && r.stage.Registered? {
      TableTake(s.loads, s.requests, s.states, id, t.requests[id]);
    } else {
      TableMove(s.loads, s.requests, s.states, id, t.requests[id]);
      if step.Enter? { TableRelabel(s.loads, t.requests, s.states, r.load, t.loads[r.load]); }
    }
  }

  lemma StepKeepsTable(s: State, e: Event)
    requires Enabled(s, e) && Numbers(s) && Tabled(s) && |s.given| < WRAP
    ensures Tabled(Next(s, e))
  {
    hide InstanceName, CanGo, Went, Table, Givens, Nums, NameOk;
    var t := Next(s, e);
    match e
    case Go(id, step) => GoKeepsTable(s, id, step);
    case Arrive(id, k) => TableMove(s.loads, s.requests, s.states, id, Request(k, Resolved, false));
    case BeginLoad(k, name) =>
      NoSuchAddon(s, name);
      TableBegin(s.loads, s.requests, s.states, k, t.loads[k]);
    case LoadFails(k) => TableEnd(s.loads, s.requests, s.states, k, t.loads[k]);
    case Unload(k) => TableEnd(s.loads, s.requests, s.states, k, t.loads[k]);
    case LoadOk(k) => TableRelabel(s.loads, s.requests, s.states, k, t.loads[k]);
    case TakeOut(k) => TableRelabel(s.loads, s.requests, s.states, k, t.loads[k]);
    case PutBack(k) => TableRelabel(s.loads, s.requests, s.states, k, t.loads[k]);
    case Seal(k) => TableRelabel(s.loads, s.requests, s.states, k, t.loads[k]);
  }

  // ---- slots and gates -----------------------------------------------------------------------------------

  /** What a request may be counted among: the holders of slots, or those inside one add-on's gate. */
  datatype Count = OfSlots | OfGate(load: nat) {
    predicate Has(r: Request) {
      match this
      case OfSlots => r.stage.HasSlot()
      case OfGate(k) => r.load == k && r.stage.InGate()
    }
  }

  function Counted(requests: map<nat, Request>, c: Count): set<nat> {
    set id | id in requests && c.Has(requests[id])
  }

  function One(b: bool): int { if b then 1 else 0 }

  lemma CountMove(requests: map<nat, Request>, c: Count, id: nat, r: Request)
    ensures |Counted(requests[id := r], c)|
            == |Counted(requests, c)| + One(c.Has(r)) - One(id in requests && c.Has(requests[id]))
  {
    var others := Counted(requests, c) - {id};
    assert Counted(requests[id := r], c) == if c.Has(r) then others + {id} else others;
    assert Counted(requests, c) == if id in requests && c.Has(requests[id]) then others + {id} else others;
  }

  lemma CountDrop(requests: map<nat, Request>, c: Count, id: nat)
    requires id in requests
    ensures |Counted(requests - {id}, c)| == |Counted(requests, c)| - One(c.Has(requests[id]))
  {
    var others := Counted(requests, c) - {id};
    assert Counted(requests - {id}, c) == others;
    assert Counted(requests, c) == if c.Has(requests[id]) then others + {id} else others;
  }

  ghost predicate GateCounts(loads: map<nat, Load>, requests: map<nat, Request>, k: nat)
    requires k in loads
  {
    loads[k].inside == |Counted(requests, OfGate(k))|
  }

  /** The slot channel holds one token for each request past it, and each gate counts who is inside. */
  ghost predicate Counts(s: State) {
    && s.taken == |Counted(s.requests, OfSlots)| && s.taken <= SLOTS
    && (forall k :: k in s.loads ==> GateCounts(s.loads, s.requests, k))
  }

  lemma GoKeepsCounts(s: State, id: nat, step: Step)
    requires CanGo(s, id, step) && Counts(s)
    ensures Counts(Went(s, id, step))
  {
    hide Counted, InstanceName;
    var t := Went(s, id, step);
    if id in t.requests { CountMove(s.requests, OfSlots, id, t.requests[id]); } else { CountDrop(s.requests, OfSlots, id); }
    forall k | k in t.loads ensures GateCounts(t.loads, t.requests, k) {
      assert GateCounts(s.loads, s.requests, k);
      if id in t.requests { CountMove(s.requests, OfGate(k), id, t.requests[id]); } else { CountDrop(s.requests, OfGate(k), id); }
    }
  }

  lemma CountsNobody(requests: map<nat, Request>, k: nat)
    requires forall id :: id in requests ==> requests[id].load != k
    ensures Counted(requests, OfGate(k)) == {}
  {
  }

  lemma StepKeepsCounts(s: State, e: Event)
    requires Enabled(s, e) && Counts(s) && Homes(s.loads, s.requests)
    ensures Counts(Next(s, e))
  {
    hide Counted, InstanceName, CanGo, Went, NameOk;
    var t := Next(s, e);
    match e
    case Go(id, step) => GoKeepsCounts(s, id, step);
    case Arrive(id, q) =>
      CountMove(s.requests, OfSlots, id, t.requests[id]);
      forall k | k in t.loads ensures GateCounts(t.loads, t.requests, k) {
        assert GateCounts(s.loads, s.requests, k);
        CountMove(s.requests, OfGate(k), id, t.requests[id]);
      }
    case BeginLoad(q, _) =>
      CountsNobody(s.requests, q);
      forall k | k in t.loads ensures GateCounts(t.loads, t.requests, k) {
        assert k in s.loads ==> GateCounts(s.loads, s.requests, k);
      }
    case _ =>
      forall k | k in t.loads ensures GateCounts(t.loads, t.requests, k) { assert GateCounts(s.loads, s.requests, k); }
  }

  /** What the gate gives a request: nobody is inside an add-on that is gone unless its removal stopped
      waiting, and until then the state a request was copied from is its own add-on's. */
  ghost predicate Gate(loads: map<nat, Load>, r: Request) {
    r.load in loads && var l := loads[r.load];
    && !l.status.Loading? && (l.status.Gone? ==> l.sealed)
    && (r.stage.InGate() && l.status.Gone? ==> l.cut)
    && (r.stage.HasBase() && !l.cut ==> r.stage.base == r.load)
  }

  ghost predicate Gates(s: State) {
    && (forall id :: id in s.requests ==> Gate(s.loads, s.requests[id]))
    && (forall k :: k in s.loads && s.loads[k].sealed ==> s.loads[k].status.Leaving? || s.loads[k].status.Gone?)
  }

  lemma BaseIsThere(s: State, k: nat)
    requires Tabled(s) && k in s.loads && !s.loads[k].status.Gone?
    ensures s.loads[k].name in s.states && s.states[s.loads[k].name] == Base(k)
  {
  }

  lemma GoKeepsGates(s: State, id: nat, step: Step)
    requires CanGo(s, id, step) && Gates(s) && Tabled(s)
    ensures Gates(Went(s, id, step))
  {
    hide InstanceName, Table;
    var t := Went(s, id, step);
    var r := s.requests[id];
    assert Gate(s.loads, r);
    if step.LookUp? && !s.loads[r.load].cut { BaseIsThere(s, r.load); }
    forall i | i in t.requests ensures Gate(t.loads, t.requests[i]) { assert Gate(s.loads, s.requests[i]); }
  }

  lemma NobodyInside(s: State, k: nat, id: nat)
    requires Counts(s) && k in s.loads && s.loads[k].inside == 0 && id in s.requests && s.requests[id].load == k
    ensures !s.requests[id].stage.InGate()
  {
    assert GateCounts(s.loads, s.requests, k);
    assert id !in Counted(s.requests, OfGate(k));
  }

  lemma InsideIsCounted(s: State, k: nat)
    requires Counts(s) && k in s.loads
    ensures s.loads[k].inside >= 0
  {
    assert GateCounts(s.loads, s.requests, k);
  }

  lemma UnloadKeepsGates(s: State, k: nat)
    requires Enabled(s, Unload(k)) && Gates(s) && Counts(s)
    ensures Gates(Next(s, Unload(k)))
  {
    hide Counts;
    var t := Next(s, Unload(k));
    InsideIsCounted(s, k);
    forall i | i in t.requests ensures Gate(t.loads, t.requests[i]) {
      assert Gate(s.loads, s.requests[i]);
      if s.requests[i].load == k && s.loads[k].inside == 0 { NobodyInside(s, k, i); }
    }
  }

  lemma StepKeepsGates(s: State, e: Event)
    requires Enabled(s, e) && Gates(s) && Tabled(s) && Counts(s)
    ensures Gates(Next(s, e))
  {
    hide InstanceName, CanGo, Went, Table, Counts, NameOk;
    var t := Next(s, e);
    match e
    case Go(id, step) => GoKeepsGates(s, id, step);
    case Unload(k) => UnloadKeepsGates(s, k);
    case Arrive(id, k) =>
      forall i | i in t.requests ensures Gate(t.loads, t.requests[i]) {
        if i != id { assert Gate(s.loads, s.requests[i]); }
      }
    case _ =>
      forall i | i in t.requests ensures Gate(t.loads, t.requests[i]) { assert Gate(s.loads, s.requests[i]); }
  }

  // ---- every interleaving ----------------------------------------------------------------------------------

  ghost predicate Sound(s: State) { Numbers(s) && Tabled(s) && Counts(s) && Gates(s) }

  lemma NothingIsSound()
    ensures Sound(EMPTY)
  {
    assert Counted(EMPTY.requests, OfSlots) == {};
  }

  lemma CounterGrows(s: State, e: Event)
    requires Enabled(s, e)
    ensures |s.given| <= |Next(s, e).given|
  {
    hide InstanceName;
  }

  lemma {:induction false} RunIsSound(es: seq<Event>)
    requires Run(es).Some? && |Run(es).value.given| < WRAP
    ensures Sound(Run(es).value)
  {
    hide Enabled, Next, Numbers, Tabled, Counts, Gates;
    if es == [] {
      NothingIsSound();
    } else {
      var s, e := Run(es[..|es| - 1]).value, es[|es| - 1];
      CounterGrows(s, e);
      RunIsSound(es[..|es| - 1]);
      StepKeepsNumbers(s, e);
      StepKeepsTable(s, e);
      HomesOf(s);
      StepKeepsCounts(s, e);
      StepKeepsGates(s, e);
    }
  }

  lemma HomesOf(s: State)
    requires Numbers(s)
    ensures Homes(s.loads, s.requests)
  {
  }

  /** The state a host call is answered against, by the calling module's name. */
  function Dispatch(s: State, caller: string): Option<Answers> {
    if caller in s.states then Some(s.states[caller]) else None
  }

  /** A live guest has its own state registered and its slot held: every host call it makes is answered
      against the request it was made for, and, short of a removal that stopped waiting, against a copy of
      its own add-on's state.  An add-on's own instance is answered against its own. */
  lemma HostCallsResolve(es: seq<Event>)
    requires Run(es).Some? && |Run(es).value.given| < WRAP
    ensures var s := Run(es).value;
            && (forall id :: id in s.requests && s.requests[id].stage.Running? ==>
                  s.requests[id].load in s.loads && var r := s.requests[id];
                  Dispatch(s, NameFor(s.loads, r)) == Some(Own(id, r.stage.base))
                  && (!s.loads[r.load].cut ==> r.stage.base == r.load))
            && (forall k :: k in s.loads && !s.loads[k].status.Gone? ==> Dispatch(s, s.loads[k].name) == Some(Base(k)))
  {
    RunIsSound(es);
    hide Run;
    var s := Run(es).value;
    forall id | id in s.requests && s.requests[id].stage.Running?
      ensures s.requests[id].load in s.loads && var r := s.requests[id];
              Dispatch(s, NameFor(s.loads, r)) == Some(Own(id, r.stage.base))
              && (!s.loads[r.load].cut ==> r.stage.base == r.load)
    {
      assert Gate(s.loads, s.requests[id]);
      assert OwnsState(s.loads, s.requests[id], id, s.states);
    }
  }

  function Live(requests: map<nat, Request>): set<nat> {
    set id | id in requests && requests[id].stage.Running?
  }

  lemma Fewer<T>(a: set<T>, b: set<T>)
    requires a <= b
    ensures |a| <= |b|
  {
    assert b == a + (b - a);
  }

  /** However the requests interleave, live guests hold slots and never exceed them. */
  lemma GuestsAreBounded(es: seq<Event>)
    requires Run(es).Some? && |Run(es).value.given| < WRAP
    ensures var s := Run(es).value;
            |Live(s.requests)| <= s.taken <= SLOTS && Live(s.requests) <= Counted(s.requests, OfSlots)
            && s.taken == |Counted(s.requests, OfSlots)|
  {
    RunIsSound(es);
    hide Run;
    Fewer(Live(Run(es).value.requests), Counted(Run(es).value.requests, OfSlots));
  }

  /** One add-on serving, with `n` live guests, and of their requests nothing else. */
  ghost predicate Full(s: State, n: nat) {
    && s.loads == map[0 := Load("ab", Serving, n, false, false)] && s.taken == n && |s.given| == n
    && "ab" in s.states && s.states["ab"] == Base(0)
    && (forall id :: id in s.requests <==> 1 <= id <= n)
    && (forall id :: id in s.requests ==> s.requests[id].stage.Running?)
  }

  /** And one more request on its way to a guest. */
  ghost predicate Filling(s: State, n: nat, stage: Stage) {
    && s.loads == map[0 := Load("ab", Serving, n + One(stage.InGate()), false, false)] && s.taken == n + One(stage.HasSlot())
    && "ab" in s.states && s.states["ab"] == Base(0) && |s.given| == n + One(stage.HasName())
    && (forall id :: id in s.requests <==> 1 <= id <= n + 1)
    && (forall id :: id in s.requests && id != n + 1 ==> s.requests[id].stage.Running?)
    && s.requests[n + 1] == Request(0, stage, false)
  }

  lemma Arrives(s: State, n: nat)
    requires Full(s, n)
    ensures Enabled(s, Arrive(n + 1, 0)) && Filling(Next(s, Arrive(n + 1, 0)), n, Resolved)
  {
  }

  predicate Follows(step: Step, from: Stage, to: Stage) {
    match step
    case Enter => from.Resolved? && to.Entered?
    case TakeSlot => from.Entered? && to.Slotted?
    case LookUp => from.Slotted? && to == Based(0)
    case Number => from.Based? && to.Numbered? && to.base == from.base
    case Put => from.Numbered? && to == Registered(from.base, from.num)
    case Instantiate => from.Registered? && to == Running(from.base, from.num)
    case _ => false
  }

  lemma AbIsFree(num: nat)
    ensures InstanceName("ab", num) != "ab"
  {
    InstanceNameIsNoAddon("ab", num, "ab");
  }

  /** Nothing but a slot can be wanting. */
  lemma Advances(s: State, n: nat, step: Step, from: Stage, to: Stage)
    requires Filling(s, n, from) && n < SLOTS && Follows(step, from, to) && (to.Numbered? ==> to.num == n + 1)
    ensures Enabled(s, Go(n + 1, step)) && Filling(Next(s, Go(n + 1, step)), n, to)
  {
    hide InstanceName, NameOk;
    if from.Numbered? { AbIsFree(from.num); }
  }

  lemma RunNext(es: seq<Event>, e: Event)
    requires Run(es).Some? && Enabled(Run(es).value, e)
    ensures Run(es + [e]) == Some(Next(Run(es).value, e))
  {
    hide Enabled, Next;
    assert (es + [e])[..|es|] == es;
  }

  lemma Goes(es: seq<Event>, n: nat, step: Step, from: Stage, to: Stage) returns (more: seq<Event>)
    requires Run(es).Some? && Filling(Run(es).value, n, from) && n < SLOTS
    requires Follows(step, from, to) && (to.Numbered? ==> to.num == n + 1)
    ensures Run(more).Some? && Filling(Run(more).value, n, to)
  {
    hide Run, Filling, Enabled, Next;
    Advances(Run(es).value, n, step, from, to);
    RunNext(es, Go(n + 1, step));
    more := es + [Go(n + 1, step)];
  }

  lemma OneMore(before: seq<Event>, n: nat) returns (es: seq<Event>)
    requires Run(before).Some? && Full(Run(before).value, n) && n < SLOTS
    ensures Run(es).Some? && Full(Run(es).value, n + 1)
  {
    hide Run, Enabled, Next, Filling, Full;
    Arrives(Run(before).value, n);
    RunNext(before, Arrive(n + 1, 0));
    es := Goes(before + [Arrive(n + 1, 0)], n, Enter, Resolved, Entered);
    es := Goes(es, n, TakeSlot, Entered, Slotted);
    es := Goes(es, n, LookUp, Slotted, Based(0));
    es := Goes(es, n, Number, Based(0), Numbered(0, n + 1));
    es := Goes(es, n, Put, Numbered(0, n + 1), Registered(0, n + 1));
    es := Goes(es, n, Instantiate, Registered(0, n + 1), Running(0, n + 1));
    Filled(Run(es).value, n);
  }

  lemma Filled(s: State, n: nat)
    requires Filling(s, n, Running(0, n + 1))
    ensures Full(s, n + 1)
  {
  }

  lemma {:induction false} FullRun(n: nat) returns (es: seq<Event>)
    requires n <= SLOTS
    ensures Run(es).Some? && Full(Run(es).value, n)
  {
    hide Run, Full;
    if n == 0 {
      es := NoneYet();
    } else {
      es := FullRun(n - 1);
      es := OneMore(es, n - 1);
    }
  }

  ghost predicate HasGuests(es: seq<Event>, n: nat) {
    Run(es).Some? && |Run(es).value.given| < WRAP && |Live(Run(es).value.requests)| == n
  }

  /** The bound is exact: n guests are live at once in some run if and only if n is at most 16. */
  lemma BoundIsExact(n: nat)
    ensures (exists es :: HasGuests(es, n)) <==> n <= 16
  {
    hide Run;
    if n <= 16 {
      var es := FullRun(n);
      AllAreLive(Run(es).value, n);
      assert HasGuests(es, n);
    }
    if es :| HasGuests(es, n) { GuestsAreBounded(es); }
  }

  lemma NoneYet() returns (es: seq<Event>)
    ensures Run(es).Some? && Full(Run(es).value, 0)
  {
    assert NameOk("ab");
    hide NameOk;
    assert Run([]) == Some(EMPTY);
    RunNext([], BeginLoad(0, "ab"));
    RunNext([] + [BeginLoad(0, "ab")], LoadOk(0));
    es := [] + [BeginLoad(0, "ab")] + [LoadOk(0)];
  }

  lemma AllAreLive(s: State, n: nat)
    requires Full(s, n)
    ensures |Live(s.requests)| == n
  {
    FirstOnes(Live(s.requests), n);
  }

  lemma {:induction false} FirstOnes(ids: set<nat>, n: nat)
    requires forall id :: id in ids <==> 1 <= id <= n
    ensures |ids| == n
  {
    if n == 0 {
      assert ids == {};
    } else {
      FirstOnes(ids - {n}, n - 1);
    }
  }

  lemma GivenDiffer(x: string, y: string, m: nat, n: nat)
    requires IsGiven(x, m) && IsGiven(y, n) && m < n < WRAP + m
    ensures x != y
  {
    hide InstanceName, NameOk;
    var a :| NameOk(a) && x == InstanceName(a, m);
    var b :| NameOk(b) && y == InstanceName(b, n);
    InstanceNamesCoincide(a, b, m, n);
    Incongruent(m, n);
  }

  lemma Incongruent(m: nat, n: nat)
    requires m < n < WRAP + m
    ensures m % WRAP != n % WRAP
  {
  }

  lemma GivenIsNoAddon(x: string, m: nat, b: string)
    requires IsGiven(x, m) && NameOk(b)
    ensures x != b
  {
    hide InstanceName, NameOk;
    var a :| NameOk(a) && x == InstanceName(a, m);
    InstanceNameIsNoAddon(a, m, b);
  }

  /** Generated names never repeat, and none is a name an add-on could have. */
  lemma NamesNeverRepeat(es: seq<Event>, i: nat, j: nat, addon: string)
    requires Run(es).Some? && i < j < |Run(es).value.given| < WRAP && NameOk(addon)
    ensures Run(es).value.given[i] != Run(es).value.given[j]
    ensures Run(es).value.given[i] != addon
  {
    AllGiven(es);
    hide Run, NameOk, IsGiven, Givens;
    GivensDiffer(Run(es).value.given, i, j, addon);
  }

  lemma AllGiven(es: seq<Event>)
    requires Run(es).Some? && |Run(es).value.given| < WRAP
    ensures Givens(Run(es).value.given)
  {
    RunIsSound(es);
    hide Run, Givens, Homes, Nums, Tabled, Counts, Gates;
  }

  lemma GivensDiffer(given: seq<string>, i: nat, j: nat, addon: string)
    requires Givens(given) && i < j < |given| < WRAP && NameOk(addon)
    ensures given[i] != given[j] && given[i] != addon
  {
    hide NameOk, IsGiven;
    assert IsGiven(given[i], i + 1) && IsGiven(given[j], j + 1);
    GivenDiffer(given[i], given[j], i + 1, j + 1);
    GivenIsNoAddon(given[i], i + 1, addon);
  }

  ghost predicate IsThere(s: State, k: nat, name: string) {
    k in s.loads && !s.loads[k].status.Gone? && s.loads[k].name == name
  }

  /** When every request has finished, the state map is the add-ons that are there and nothing else, every
      slot is free and every gate empty. */
  lemma NothingIsLeftBehind(es: seq<Event>)
    requires Run(es).Some? && |Run(es).value.given| < WRAP && Run(es).value.requests == map[]
    ensures var s := Run(es).value;
            && (forall key :: key in s.states <==> exists k :: IsThere(s, k, key))
            && (forall k, key :: IsThere(s, k, key) ==> Dispatch(s, key) == Some(Base(k)))
            && s.taken == 0 && forall k :: k in s.loads ==> s.loads[k].inside == 0
  {
    RunIsSound(es);
    hide Run, InstanceName, NameOk;
    var s := Run(es).value;
    assert Counted(s.requests, OfSlots) == {};
    forall k | k in s.loads ensures s.loads[k].inside == 0 {
      assert GateCounts(s.loads, s.requests, k);
      CountsNobody(s.requests, k);
    }
    forall key | key in s.states ensures exists k :: IsThere(s, k, key) {
      assert Accounted(s.loads, s.requests, key, s.states[key]);
      assert IsThere(s, s.states[key].load, key);
    }
  }

  /** Nobody is inside an add-on that is gone, unless its removal stopped waiting; and until then the base
      state a request looks up is there and is its own add-on's. */
  lemma BaseIsNeverMissing(es: seq<Event>, id: nat)
    requires Run(es).Some? && |Run(es).value.given| < WRAP && id in Run(es).value.requests
    requires Run(es).value.requests[id].stage.InGate()
    ensures var s := Run(es).value; var k := s.requests[id].load;
            k in s.loads && (!s.loads[k].cut ==>
              !s.loads[k].status.Gone? && Dispatch(s, s.loads[k].name) == Some(Base(k)))
  {
    RunIsSound(es);
    hide Run, InstanceName, NameOk, Numbers, Table, Counts;
    var s := Run(es).value;
    assert Gate(s.loads, s.requests[id]);
    if !s.loads[s.requests[id].load].status.Gone? { BaseIsThere(s, s.requests[id].load); }
  }

  lemma UnloadCuts(s: State, k: nat)
    requires Enabled(s, Unload(k))
    ensures k in s.loads && k in Next(s, Unload(k)).loads && (Next(s, Unload(k)).loads[k].cut <==> s.loads[k].inside > 0)
  {
    hide CanGo, Went;
  }

  lemma GateIsExact(s: State, k: nat)
    requires Counts(s) && k in s.loads
    ensures s.loads[k].inside == |Counted(s.requests, OfGate(k))|
    ensures s.loads[k].inside > 0 <==> exists id :: id in Counted(s.requests, OfGate(k))
  {
    hide Counted;
    assert GateCounts(s.loads, s.requests, k);
    var inside := Counted(s.requests, OfGate(k));
    if inside != {} { var id :| id in inside; }
  }

  /** A removal that waits until its add-on's gate is empty closes nothing under anybody: the count it waits
      on is exactly the requests inside, and it is recorded as cut exactly when some are left. */
  lemma RemovalWaits(es: seq<Event>, k: nat)
    requires Run(es).Some? && |Run(es).value.given| < WRAP && Enabled(Run(es).value, Unload(k))
    ensures var s := Run(es).value;
            s.loads[k].inside == |Counted(s.requests, OfGate(k))|
            && (Next(s, Unload(k)).loads[k].cut <==> exists id :: id in Counted(s.requests, OfGate(k)))
  {
    RunIsSound(es);
    UnloadCuts(Run(es).value, k);
    hide Run, Next, Enabled, Numbers, Tabled, Counts, Gates, Counted;
    GateIsExact(Run(es).value, k);
  }

  // ---- acts of the lifecycle -----------------------------------------------------------------------------

  /** The act in progress is the one add-on that is being loaded or removed. */
  ghost predicate OneAct(s: State) {
    && (s.busy.Some? ==> s.busy.value in s.loads)
    && (forall k :: k in s.loads ==> (s.loads[k].status.Loading? || s.loads[k].status.Leaving? <==> s.busy == Some(k)))
  }

  lemma StepKeepsOneAct(s: State, e: Event)
    requires Enabled(s, e) && OneAct(s)
    ensures OneAct(Next(s, e))
  {
    hide InstanceName, NameOk;
  }

  /** Loads and removals never overlap, in any run. */
  lemma {:induction false} OneActAtATime(es: seq<Event>)
    requires Run(es).Some?
    ensures OneAct(Run(es).value)
  {
    hide Enabled, Next, OneAct;
    if es == [] {
      assert OneAct(EMPTY) by { NoAct(); }
    } else {
      OneActAtATime(es[..|es| - 1]);
      StepKeepsOneAct(Run(es[..|es| - 1]).value, es[|es| - 1]);
    }
  }

  lemma NoAct()
    ensures OneAct(EMPTY)
  {
  }

  /** Taking an add-on out and putting it back leaves everything as it was. */
  lemma PutBackUndoes(s: State, k: nat)
    requires Enabled(s, TakeOut(k)) && !s.loads[k].sealed
    ensures Enabled(Next(s, TakeOut(k)), PutBack(k)) && Next(Next(s, TakeOut(k)), PutBack(k)) == s
  {
    hide InstanceName, CanGo, Went;
    assert s.loads[k := s.loads[k].(status := Leaving)][k := s.loads[k]] == s.loads;
  }

  /** Between the two nobody arrives; once the gate is sealed nobody enters, and a request that had resolved is turned
      away with nothing taken. */
  lemma LeavingTurnsAway(s: State, k: nat, id: nat)
    requires k in s.loads
    ensures s.loads[k].status.Leaving? ==> !Enabled(s, Arrive(id, k))
    ensures s.loads[k].sealed && Enabled(s, Go(id, Enter)) && s.requests[id].load == k ==>
              Next(s, Go(id, Enter)) == s.(requests := s.requests - {id})
  {
    hide InstanceName;
  }

  /** A removal goes all the way whoever is inside, and takes the add-on's name and nothing else. */
  lemma RemovalRuns(s: State, k: nat)
    requires Enabled(s, TakeOut(k))
    ensures var s1 := Next(s, TakeOut(k));
            Enabled(s1, Seal(k)) && var s2 := Next(s1, Seal(k));
            Enabled(s2, Unload(k)) && var s3 := Next(s2, Unload(k));
            var l := s.loads[k];
            s3 == s.(loads := s.loads[k := Load(l.name, Gone, l.inside, true, l.inside > 0)], states := s.states - {l.name})
  {
    hide InstanceName, CanGo, Went;
    var l := s.loads[k];
    var s1 := Next(s, TakeOut(k));
    var s2 := Next(s1, Seal(k));
    assert s2.loads == s.loads[k := l.(status := Leaving, sealed := true)];
  }

  /** A load that fails leaves nothing but the record that it was tried; one that succeeds, the add-on serving under
      its name. */
  lemma LoadRuns(s: State, k: nat, name: string)
    requires Enabled(s, BeginLoad(k, name)) && name !in s.states
    ensures var s1 := Next(s, BeginLoad(k, name));
            && Enabled(s1, LoadFails(k)) && Enabled(s1, LoadOk(k))
            && Next(s1, LoadFails(k)) == s.(loads := s.loads[k := Load(name, Gone, 0, false, false)])
            && Next(s1, LoadOk(k)) == s.(loads := s.loads[k := Load(name, Serving, 0, false, false)],
                                         states := s.states[name := Base(k)])
  {
    hide InstanceName, CanGo, Went, NameOk;
    assert s.states[name := Base(k)] - {name} == s.states;
  }

  // ---- requests can finish -------------------------------------------------------------------------------

  /** How far a request is from being done. */
  function Distance(r: Request): nat {
    if r.stage.Resolved? then 12
    else
      (if r.leaving then 0 else 6) + match r.stage
                                     case Running(_, _) => 4
                                     case Registered(_, _) => 3
                                     case Entered => 1
                                     case _ => 2
  }

  function Homeward(r: Request): Step { if r.stage.Resolved? then Enter else if r.leaving then Unwind else GiveUp }

  /** What one request's moves leave alone. */
  ghost predicate OthersSame(s: State, t: State, id: nat) {
    t.requests - {id} == s.requests - {id} && t.loads.Keys == s.loads.Keys && t.given == s.given
  }

  lemma HomewardStep(s: State, id: nat)
    requires id in s.requests && s.requests[id].load in s.loads
    ensures var e := Go(id, Homeward(s.requests[id]));
            && Enabled(s, e) && OthersSame(s, Next(s, e), id)
            && (id in Next(s, e).requests ==>
                  Distance(Next(s, e).requests[id]) < Distance(s.requests[id])
                  && Next(s, e).requests[id].load == s.requests[id].load)
  {
    hide InstanceName;
  }

  lemma {:induction false} DriveOut(es: seq<Event>, id: nat) returns (more: seq<Event>)
    requires Run(es).Some? && id in Run(es).value.requests && Run(es).value.requests[id].load in Run(es).value.loads
    ensures Run(es + more).Some? && id !in Run(es + more).value.requests
    ensures OthersSame(Run(es).value, Run(es + more).value, id)
    decreases Distance(Run(es).value.requests[id])
  {
    hide Run, Enabled, Next, Distance, Homeward;
    var s := Run(es).value;
    var e := Go(id, Homeward(s.requests[id]));
    HomewardStep(s, id);
    RunNext(es, e);
    if id in Next(s, e).requests {
      var rest := DriveOut(es + [e], id);
      more := [e] + rest;
      assert es + more == es + [e] + rest;
    } else {
      more := [e];
    }
  }

  ghost predicate Placed(s: State) { forall id :: id in s.requests ==> s.requests[id].load in s.loads }

  lemma OneFewer(s: State, t: State, id: nat)
    requires Placed(s) && id in s.requests && id !in t.requests && OthersSame(s, t, id)
    ensures Placed(t) && |t.requests| < |s.requests|
  {
    assert t.requests == t.requests - {id};
    assert t.requests.Keys == s.requests.Keys - {id};
    forall i | i in t.requests ensures t.requests[i].load in t.loads {
      assert i in s.requests - {id} && t.requests[i] == s.requests[i];
      assert s.requests[i].load in s.loads.Keys;
    }
  }

  lemma {:induction false} DriveAllOut(es: seq<Event>) returns (more: seq<Event>)
    requires Run(es).Some? && Placed(Run(es).value)
    ensures Run(es + more).Some? && Run(es + more).value.requests == map[] && Run(es + more).value.given == Run(es).value.given
    decreases |Run(es).value.requests|
  {
    hide Run, Placed, OthersSame;
    var s := Run(es).value;
    if s.requests == map[] {
      more := [];
      assert es + more == es;
    } else {
      var id :| id in s.requests;
      PlacedAt(s, id);
      var first := DriveOut(es, id);
      OneFewer(s, Run(es + first).value, id);
      SameNames(s, Run(es + first).value, id);
      var rest := DriveAllOut(es + first);
      more := first + rest;
      assert es + more == es + first + rest;
    }
  }

  lemma PlacedAt(s: State, id: nat)
    requires Placed(s) && id in s.requests
    ensures s.requests[id].load in s.loads
  {
  }

  lemma SameNames(s: State, t: State, id: nat)
    requires OthersSame(s, t, id)
    ensures t.given == s.given
  {
  }

  /** From every state of every run all the requests there are can finish, by moves of their own that need no slot and
      no other request's; and then nothing is left behind, as NothingIsLeftBehind has it. */
  lemma RequestsCanFinish(es: seq<Event>)
    requires Run(es).Some? && |Run(es).value.given| < WRAP
    ensures exists more :: Run(es + more).Some? && Run(es + more).value.requests == map[]
                           && Run(es + more).value.taken == 0
  {
    RunIsSound(es);
    HomesOf(Run(es).value);
    assert Placed(Run(es).value);
    hide Run, Sound, Homes, Placed;
    var more := DriveAllOut(es);
    NothingIsLeftBehind(es + more);
  }
}
