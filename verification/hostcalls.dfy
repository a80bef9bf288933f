/** The two host functions with side effects, as steps over arbitrary guest calls: network_fetch, which
    holds an answer its guest has not taken, and session_mint, which looks at the buffer first. */
module HostCalls {
  import opened Wrappers
  import opened Utf8
  import opened Abi

  // ---- network_fetch -----------------------------------------------------------------------------

  /** What one attempt brings back: an encoded record, or the encoding failing. */
  datatype Answer = Encoded(bytes: seq<Byte>) | Unencodable

  /** The host around one invocation: whether it may reach outward, what the class refusal encodes to,
      which request records parse, and what the world answers to its i-th request. */
  datatype Outside = Outside(mayFetch: bool, refused: seq<Byte>, parses: seq<Byte> -> bool, world: nat -> Answer) {
    function Answers(i: nat): Answer { if mayFetch then world(i) else Encoded(refused) }
  }

  /** Where an answer came from: the load-time state an invocation was copied from, or its own i-th request. */
  datatype Origin = Inherited | Asked(index: nat)

  /** An undelivered answer, the request it answers, and where it came from. */
  datatype Held = Held(request: seq<Byte>, answer: seq<Byte>, origin: Origin)

  /** `made` lists the doFetch calls in order, `given` the origins of the answers delivered. */
  datatype FetchState = FetchState(hold: Option<Held>, made: seq<seq<Byte>>, given: seq<Origin>)

  /** One call: the request record if its pointer was readable, and the buffer offered. */
  datatype Call = Call(raw: Option<seq<Byte>>, ptr: U32, capacity: U32, mem: seq<Byte>)

  /** Offering an answer: dropped exactly when delivered, kept otherwise. */
  function Offer(s: FetchState, raw: seq<Byte>, answer: seq<Byte>, origin: Origin, c: Call): (FetchState, int, seq<Byte>) {
    var (n, mem) := Written(c.mem, c.ptr, c.capacity, answer);
    if Delivered(n, c.capacity, answer) then (s.(hold := None, given := s.given + [origin]), n, mem)
    else (s.(hold := Some(Held(raw, answer, origin))), n, mem)
  }

  function FetchStep(o: Outside, s: FetchState, c: Call): (FetchState, int, seq<Byte>) {
    match c.raw
    case None => (s, STATUS_INVALID, c.mem)
    case Some(raw) =>
      if s.hold.Some? && s.hold.value.request == raw then
        Offer(s, raw, s.hold.value.answer, s.hold.value.origin, c)
      else if !o.parses(raw) then (s, STATUS_INVALID, c.mem)
      else
        var asked := s.(made := s.made + [raw]);
        match o.Answers(|s.made|)
        case Unencodable => (asked.(hold := None), STATUS_INTERNAL, c.mem)
        case Encoded(answer) => Offer(asked, raw, answer, Asked(|s.made|), c)
  }

  function FetchRun(o: Outside, s: FetchState, calls: seq<Call>): FetchState {
    if calls == [] then s else FetchStep(o, FetchRun(o, s, calls[..|calls| - 1]), calls[|calls| - 1]).0
  }

  /** A request state is a copy of the load-time state: the hold comes along, the counters do not. */
  function ForRequest(base: FetchState): FetchState {
    FetchState(if base.hold.None? then None else Some(base.hold.value.(origin := Inherited)), [], [])
  }

  /** An answer of this origin belongs to this request, by the invocation's inheritance or by the world. */
  ghost predicate Belongs(o: Outside, base: FetchState, made: seq<seq<Byte>>, request: seq<Byte>, answer: seq<Byte>,
                          origin: Origin) {
    match origin
    case Inherited => base.hold.Some? && base.hold.value.request == request && base.hold.value.answer == answer
    case Asked(i) => i < |made| && made[i] == request && o.Answers(i) == Encoded(answer)
  }

  /** A held answer belongs to the request it is kept under and has not been delivered; no answer has been
      delivered twice, and each was inherited or asked for. */
  ghost predicate FetchInv(o: Outside, base: FetchState, s: FetchState) {
    && (s.hold.Some? ==>
          var h := s.hold.value;
          Belongs(o, base, s.made, h.request, h.answer, h.origin) && h.origin !in s.given)
    && (forall i, j :: 0 <= i < j < |s.given| ==> s.given[i] != s.given[j])
    && (forall i :: 0 <= i < |s.given| && s.given[i].Asked? ==> s.given[i].index < |s.made|)
  }

  lemma FetchStepInv(o: Outside, base: FetchState, s: FetchState, c: Call)
    requires FetchInv(o, base, s)
    ensures FetchInv(o, base, FetchStep(o, s, c).0)
  {
    hide Written, Delivered;
    if c.raw.Some? {
      var raw := c.raw.value;
      if s.hold.Some? && s.hold.value.request == raw {
        OfferInv(o, base, s, raw, s.hold.value.answer, s.hold.value.origin, c);
      } else if o.parses(raw) && o.Answers(|s.made|).Encoded? {
        var asked := s.(hold := None, made := s.made + [raw]);
        assert FetchInv(o, base, asked);
        OfferInv(o, base, asked, raw, o.Answers(|s.made|).bytes, Asked(|s.made|), c);
      }
    }
  }

  lemma OfferInv(o: Outside, base: FetchState, s: FetchState, raw: seq<Byte>, answer: seq<Byte>, origin: Origin, c: Call)
    requires FetchInv(o, base, s) && Belongs(o, base, s.made, raw, answer, origin) && origin !in s.given
    ensures FetchInv(o, base, Offer(s, raw, answer, origin, c).0)
  {
    hide Written, Delivered;
  }

  lemma InvocationStarts(o: Outside, base: FetchState)
    ensures FetchInv(o, base, ForRequest(base))
  {
  }

  /** Whatever an invocation's guest calls, with whatever buffers, in whatever order, and whatever loading
      left held: no answer is delivered twice, the inherited one included, and each one delivered was
      inherited or came from one request of the invocation's own. */
  lemma {:induction false} NoAnswerTwice(o: Outside, base: FetchState, calls: seq<Call>)
    ensures FetchInv(o, base, FetchRun(o, ForRequest(base), calls))
  {
    if calls == [] {
      InvocationStarts(o, base);
    } else {
      NoAnswerTwice(o, base, calls[..|calls| - 1]);
      FetchStepInv(o, base, FetchRun(o, ForRequest(base), calls[..|calls| - 1]), calls[|calls| - 1]);
    }
  }

  /** What a delivery puts in the guest's buffer, after any calls of an invocation: the whole answer that
      belongs to the very request the call made. */
  lemma DeliveredIsTheAnswer(o: Outside, base: FetchState, calls: seq<Call>, c: Call)
    requires var s := FetchRun(o, ForRequest(base), calls); |FetchStep(o, s, c).0.given| > |s.given|
    ensures var s := FetchRun(o, ForRequest(base), calls);
            var (s', n, mem) := FetchStep(o, s, c);
            && c.raw.Some? && s'.given == s.given + [s'.given[|s'.given| - 1]]
            && Belongs(o, base, s'.made, c.raw.value, ReadAt(mem, c.ptr, n), s'.given[|s'.given| - 1])
  {
    NoAnswerTwice(o, base, calls);
    var s := FetchRun(o, ForRequest(base), calls);
    hide FetchRun;
    var raw := c.raw.value;
    var answer := if s.hold.Some? && s.hold.value.request == raw then s.hold.value.answer else o.Answers(|s.made|).bytes;
    AllOrNothing(c.mem, c.ptr, c.capacity, answer);
  }

  // ---- an inherited answer -----------------------------------------------------------------------

  /** A call that repeats the held request with room for its answer. */
  predicate Takes(h: Held, c: Call) {
    c.raw == Some(h.request) && Delivered(Written(c.mem, c.ptr, c.capacity, h.answer).0, c.capacity, h.answer)
  }

  /** A call that makes another request, after which the held answer is gone. */
  predicate Replaces(o: Outside, h: Held, c: Call) { c.raw.Some? && c.raw.value != h.request && o.parses(c.raw.value) }

  /** Some call takes the answer before any call replaces it. */
  ghost predicate TakenInTime(o: Outside, h: Held, calls: seq<Call>) {
    exists i :: 0 <= i < |calls| && Takes(h, calls[i]) && forall j :: 0 <= j < i ==> !Replaces(o, h, calls[j])
  }

  /** The state of an inherited answer after some calls: delivered, or still held, or gone. */
  ghost predicate InheritedAt(o: Outside, h: Held, calls: seq<Call>, s: FetchState) {
    && (Inherited in s.given <==> TakenInTime(o, h, calls))
    && (s.hold == Some(h) <==>
          (forall i :: 0 <= i < |calls| ==> !Takes(h, calls[i]) && !Replaces(o, h, calls[i])))
    && (s.hold.Some? && s.hold.value.origin.Inherited? ==> s.hold == Some(h))
  }

  lemma TakenNext(o: Outside, h: Held, calls: seq<Call>)
    requires calls != []
    ensures var before, c := calls[..|calls| - 1], calls[|calls| - 1];
            TakenInTime(o, h, calls) <==>
              TakenInTime(o, h, before) || (Takes(h, c) && forall j :: 0 <= j < |before| ==> !Replaces(o, h, before[j]))
  {
    hide Takes, Replaces;
    var before := calls[..|calls| - 1];
    if TakenInTime(o, h, before) {
      var i :| 0 <= i < |before| && Takes(h, before[i]) && forall j :: 0 <= j < i ==> !Replaces(o, h, before[j]);
      assert Takes(h, calls[i]) && forall j :: 0 <= j < i ==> calls[j] == before[j];
    }
    if TakenInTime(o, h, calls) {
      var i :| 0 <= i < |calls| && Takes(h, calls[i]) && forall j :: 0 <= j < i ==> !Replaces(o, h, calls[j]);
      assert forall j :: 0 <= j < i ==> calls[j] == before[j];
      if i < |before| { assert Takes(h, before[i]); }
    }
  }

  lemma InheritedStep(o: Outside, h: Held, calls: seq<Call>, s: FetchState)
    requires h.origin.Inherited? && calls != [] && InheritedAt(o, h, calls[..|calls| - 1], s)
    ensures InheritedAt(o, h, calls, FetchStep(o, s, calls[|calls| - 1]).0)
  {
    var before, c := calls[..|calls| - 1], calls[|calls| - 1];
    TakenNext(o, h, calls);
    hide Written, Delivered, TakenInTime;
    assert calls == before + [c];
    var t := FetchStep(o, s, c).0;
    if s.hold == Some(h) {
      assert Inherited in t.given <==> Inherited in s.given || Takes(h, c);
    } else {
      assert Inherited in t.given <==> Inherited in s.given;
    }
  }

  lemma {:induction false} InheritedRun(o: Outside, base: FetchState, calls: seq<Call>)
    requires base.hold.Some?
    ensures InheritedAt(o, base.hold.value.(origin := Inherited), calls, FetchRun(o, ForRequest(base), calls))
  {
    hide InheritedAt, FetchStep;
    var h := base.hold.value.(origin := Inherited);
    if calls == [] {
      InheritedStart(o, base);
    } else {
      InheritedRun(o, base, calls[..|calls| - 1]);
      InheritedStep(o, h, calls, FetchRun(o, ForRequest(base), calls[..|calls| - 1]));
    }
  }

  lemma InheritedStart(o: Outside, base: FetchState)
    requires base.hold.Some?
    ensures InheritedAt(o, base.hold.value.(origin := Inherited), [], ForRequest(base))
  {
  }

  /** An answer left from loading reaches an invocation's guest exactly when some call repeats its request
      with room for it before any call makes another request. */
  lemma InheritedIsDelivered(o: Outside, base: FetchState, calls: seq<Call>)
    ensures Inherited in FetchRun(o, ForRequest(base), calls).given
            <==> base.hold.Some? && TakenInTime(o, base.hold.value.(origin := Inherited), calls)
  {
    if base.hold.Some? {
      InheritedRun(o, base, calls);
    } else {
      NothingInherited(o, base, calls);
    }
  }

  lemma {:induction false} NothingInherited(o: Outside, base: FetchState, calls: seq<Call>)
    requires base.hold.None?
    ensures var s := FetchRun(o, ForRequest(base), calls);
            Inherited !in s.given && (s.hold.Some? ==> s.hold.value.origin.Asked?)
  {
    if calls != [] {
      NothingInherited(o, base, calls[..|calls| - 1]);
    }
  }

  /** Repeating the held request, at any buffers, never asks the world again while it goes undelivered. */
  lemma {:induction false} RepeatsAreFree(o: Outside, s: FetchState, calls: seq<Call>)
    requires s.hold.Some? && forall i :: 0 <= i < |calls| ==> calls[i].raw == Some(s.hold.value.request)
    requires FetchRun(o, s, calls).given == s.given
    ensures FetchRun(o, s, calls) == s
  {
    if calls != [] {
      var before := FetchRun(o, s, calls[..|calls| - 1]);
      GivenGrows(o, before, calls[|calls| - 1]);
      GivenPrefix(o, s, calls[..|calls| - 1]);
      assert before.given == s.given;
      RepeatsAreFree(o, s, calls[..|calls| - 1]);
    }
  }

  lemma GivenGrows(o: Outside, s: FetchState, c: Call)
    ensures s.given <= FetchStep(o, s, c).0.given && s.made <= FetchStep(o, s, c).0.made
  {}

  lemma {:induction false} GivenPrefix(o: Outside, s: FetchState, calls: seq<Call>)
    ensures s.given <= FetchRun(o, s, calls).given
  {
    if calls != [] {
      GivenPrefix(o, s, calls[..|calls| - 1]);
      GivenGrows(o, FetchRun(o, s, calls[..|calls| - 1]), calls[|calls| - 1]);
    }
  }

  /** An inherited answer can be wrong.  A module that fetches during package initialization with no room for the
      answer leaves a class refusal held in the load-time state, and every later invocation repeating the
      request is handed that refusal instead of the world's answer, without a request being made. */
  lemma RefusalOutlivesLoading(load: Outside, route: Outside, request: seq<Byte>, c: Call)
    requires !load.mayFetch && route.mayFetch && load.parses(request) && 0 < |load.refused| <= c.capacity <= MAX_INT32
    requires c.raw == Some(request) && c.ptr + |load.refused| <= |c.mem|
    ensures var base := FetchStep(load, FetchState(None, [], []), Call(Some(request), 0, 0, [])).0;
            var (s, n, mem) := FetchStep(route, ForRequest(base), c);
            s.made == [] && n == |load.refused| && ReadAt(mem, c.ptr, n) == load.refused
  {
    AllOrNothing(c.mem, c.ptr, c.capacity, load.refused);
  }

  // ---- session_mint ------------------------------------------------------------------------------

  const MINTED_SESSION_MAX_BYTES := 84

  /** The host's answer about an assertion: a refusal's status, or a session. */
  datatype Assertion = Refused(status: int) | Session(expiresAt: string, secondFactor: bool)

  datatype MintOutside = MintOutside(inRequest: bool, hasService: bool, claimParses: seq<Byte> -> bool, decide: nat -> Assertion)

  /** Whether this request has minted, how often the service was asked and how often it minted. */
  datatype MintState = MintState(minted: bool, asked: nat, mints: nat)

  const EXPIRES_AT := "{\"expires_at\":\""
  const SECOND_FACTOR := "\",\"second_factor_required\":"

  function MintedRecord(expiresAt: string, secondFactor: bool): string {
    EXPIRES_AT + expiresAt + SECOND_FACTOR + (if secondFactor then "true" else "false") + "}"
  }

  function MintStep(o: MintOutside, s: MintState, c: Call): (MintState, int, seq<Byte>) {
    if c.raw.None? then (s, STATUS_INVALID, c.mem)
    else if !o.inRequest then (s, STATUS_NOT_FOUND, c.mem)
    else if s.minted then (s, STATUS_INVALID, c.mem)
    else if !o.hasService then (s, STATUS_INTERNAL, c.mem)
    else if !o.claimParses(c.raw.value) then (s, STATUS_INVALID, c.mem)
    else if c.capacity < MINTED_SESSION_MAX_BYTES then (s, MINTED_SESSION_MAX_BYTES, c.mem)
    else match o.decide(s.asked)
      case Refused(status) => (s.(asked := s.asked + 1), if status < 0 then status else STATUS_INTERNAL, c.mem)
      case Session(expiresAt, secondFactor) =>
        var record := Utf8.Encode(MintedRecord(expiresAt, secondFactor));
        var after := MintState(true, s.asked + 1, s.mints + 1);
        if |record| > MINTED_SESSION_MAX_BYTES then (after, STATUS_INTERNAL, c.mem)
        else (after, Written(c.mem, c.ptr, c.capacity, record).0, Written(c.mem, c.ptr, c.capacity, record).1)
  }

  function MintRun(o: MintOutside, s: MintState, calls: seq<Call>): MintState {
    if calls == [] then s else MintStep(o, MintRun(o, s, calls[..|calls| - 1]), calls[|calls| - 1]).0
  }

  /** A call the service is asked about: a readable claim that parses, in a request, on a host with the service,
      and with room for the record's bound. */
  predicate Proper(o: MintOutside, c: Call) {
    c.raw.Some? && o.inRequest && o.hasService && o.claimParses(c.raw.value) && c.capacity >= 84
  }

  function ProperCalls(o: MintOutside, calls: seq<Call>): nat {
    if calls == [] then 0
    else ProperCalls(o, calls[..|calls| - 1]) + if Proper(o, calls[|calls| - 1]) then 1 else 0
  }

  /** A call asks the service exactly when it is proper and the request has not minted, and mints exactly when the
      service's answer is then a session; nothing else changes anything. */
  lemma MintStepExactly(o: MintOutside, s: MintState, c: Call)
    ensures var t := MintStep(o, s, c).0;
            var asks := Proper(o, c) && !s.minted;
            var mints := asks && o.decide(s.asked).Session?;
            && (t.asked > s.asked <==> asks) && (t.mints > s.mints <==> mints) && (t.minted <==> s.minted || mints)
            && t.asked <= s.asked + 1 && t.mints <= s.mints + 1 && t.asked >= s.asked && t.mints >= s.mints
  {
    hide Utf8.Encode, MintedRecord;
  }

  /** What a call that did not reach the service is told: each status for exactly the first condition that fails,
      in the host's order. */
  lemma MintRefusals(o: MintOutside, s: MintState, c: Call)
    requires !(Proper(o, c) && !s.minted)
    ensures var (t, n, mem) := MintStep(o, s, c);
            && t == s && mem == c.mem
            && (n == -4 <==> c.raw.Some? && !o.inRequest)
            && (n == -1 <==> c.raw.Some? && o.inRequest && !s.minted && !o.hasService)
            && (n == 84 <==> c.raw.Some? && o.inRequest && !s.minted && o.hasService && o.claimParses(c.raw.value))
            && (n == -5
                <==> c.raw.None? || (o.inRequest && (s.minted || (o.hasService && !o.claimParses(c.raw.value)))))
  {
    hide Utf8.Encode, MintedRecord;
  }

  /** What one that did is told: the service's refusal, or the record where the buffer is addressable. */
  lemma MintAnswers(o: MintOutside, s: MintState, c: Call)
    requires Proper(o, c) && !s.minted
    ensures var n := MintStep(o, s, c).1;
            match o.decide(s.asked)
            case Refused(status) => n == (if status < 0 then status else STATUS_INTERNAL)
            case Session(expiresAt, secondFactor) =>
              var size := |Utf8.Encode(MintedRecord(expiresAt, secondFactor))|;
              && (size > 84 ==> n == STATUS_INTERNAL)
              && (size <= 84 ==> if size == 0 || c.ptr + size <= |c.mem| then n == size else n == STATUS_INVALID)
  {
    hide Utf8.Encode, MintedRecord;
  }

  /** Over any calls in one request: a session is minted if and only if the service answers some proper call with
      one, it is asked about each proper call up to the first it answers so, and then about no other. */
  lemma {:induction false} MintsExactly(o: MintOutside, calls: seq<Call>)
    ensures var s := MintRun(o, MintState(false, 0, 0), calls);
            && (s.minted <==> exists k :: 0 <= k < ProperCalls(o, calls) && o.decide(k).Session?)
            && (forall k :: 0 <= k < s.asked && o.decide(k).Session? ==> k == s.asked - 1)
            && (if s.minted then 0 < s.asked <= ProperCalls(o, calls) && o.decide(s.asked - 1).Session?
                else s.asked == ProperCalls(o, calls))
  {
    if calls != [] {
      MintsExactly(o, calls[..|calls| - 1]);
      hide MintStep, Proper;
      MintStepExactly(o, MintRun(o, MintState(false, 0, 0), calls[..|calls| - 1]), calls[|calls| - 1]);
    }
  }

  /** A size that fits the buffer comes back only with a session just minted, whole, in that buffer. */
  lemma MintDelivers(o: MintOutside, s: MintState, c: Call)
    requires 0 <= MintStep(o, s, c).1 <= c.capacity && c.ptr + c.capacity <= |c.mem|
    ensures !s.minted && o.decide(s.asked).Session?
    ensures var d := o.decide(s.asked); var (s', n, mem) := MintStep(o, s, c);
            s' == MintState(true, s.asked + 1, s.mints + 1)
            && ReadAt(mem, c.ptr, n) == Utf8.Encode(MintedRecord(d.expiresAt, d.secondFactor))
  {
    hide Utf8.Encode, MintedRecord;
    var d := o.decide(s.asked);
    if d.Session? { AllOrNothing(c.mem, c.ptr, c.capacity, Utf8.Encode(MintedRecord(d.expiresAt, d.secondFactor))); }
  }

  /** Every other answer is a refusal, or asks for the record's bound. */
  lemma MintRefuses(o: MintOutside, s: MintState, c: Call)
    ensures var (s', n, mem) := MintStep(o, s, c);
            |mem| == |c.mem| && (n > c.capacity ==> n == MINTED_SESSION_MAX_BYTES)
  {
    hide Utf8.Encode, MintedRecord;
    if o.decide(s.asked).Session? {
      var d := o.decide(s.asked);
      AllOrNothing(c.mem, c.ptr, c.capacity, Utf8.Encode(MintedRecord(d.expiresAt, d.secondFactor)));
    }
  }

  /** Over any sequence of calls in one request the service mints at most once, and the request knows. */
  lemma {:induction false} MintsAtMostOnce(o: MintOutside, calls: seq<Call>)
    ensures var s := MintRun(o, MintState(false, 0, 0), calls);
            s.mints <= 1 && (s.minted <==> s.mints == 1)
  {
    if calls != [] { MintsAtMostOnce(o, calls[..|calls| - 1]); }
  }

  /** An answer larger than the buffer offered minted nothing, asked nobody and changed nothing. */
  lemma TooSmallMeansNothingHappened(o: MintOutside, s: MintState, c: Call)
    requires MintStep(o, s, c).1 > c.capacity
    ensures MintStep(o, s, c) == (s, MINTED_SESSION_MAX_BYTES, c.mem)
  {}

  lemma FrameLengths()
    ensures ByteLen(EXPIRES_AT) == 15 && ByteLen(SECOND_FACTOR) == 27
    ensures ByteLen("true") == 4 && ByteLen("false") == 5 && ByteLen("}") == 1
  {
    hide ByteLen;
    AsciiByteLen(EXPIRES_AT);
    AsciiByteLen(SECOND_FACTOR);
    AsciiByteLen("true");
    AsciiByteLen("false");
    AsciiByteLen("}");
  }

  lemma FiveParts(a: string, b: string, c: string, d: string, e: string)
    ensures ByteLen(a + b + c + d + e) == ByteLen(a) + ByteLen(b) + ByteLen(c) + ByteLen(d) + ByteLen(e)
  {
    ByteLenAppend(a + b + c + d, e);
    ByteLenAppend(a + b + c, d);
    ByteLenAppend(a + b, c);
    ByteLenAppend(a, b);
  }

  /** The bound is the frame's 48 bytes, an RFC 3339 instant's 20, and 16 to spare: exactly the instants
      of at most 36 bytes fit it whatever the flag. */
  lemma RecordFits(expiresAt: string)
    ensures |Utf8.Encode(MintedRecord(expiresAt, false))| == 48 + ByteLen(expiresAt)
    ensures |Utf8.Encode(MintedRecord(expiresAt, true))| == 47 + ByteLen(expiresAt)
    ensures ByteLen(expiresAt) <= 36
            <==> forall secondFactor :: |Utf8.Encode(MintedRecord(expiresAt, secondFactor))| <= MINTED_SESSION_MAX_BYTES
  {
    FrameLengths();
    hide ByteLen;
    EncodeLength(MintedRecord(expiresAt, false));
    EncodeLength(MintedRecord(expiresAt, true));
    FiveParts(EXPIRES_AT, expiresAt, SECOND_FACTOR, "false", "}");
    FiveParts(EXPIRES_AT, expiresAt, SECOND_FACTOR, "true", "}");
  }
}
