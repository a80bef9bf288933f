/** The host's per-invocation state as an object, and the SDK's generated grow-and-retry loop over it. */
module Sdk {
  import opened Wrappers
  import opened Utf8
  import opened Abi
  import opened HostCalls

  class HostState {
    const fetching: Outside
    const minting: MintOutside

    /** The answer to a request the guest could not take yet, and the record it answers. */
    var fetchFor: seq<Byte>
    var fetchHeld: Option<seq<Byte>>
    var minted: bool

    /** What has happened outside this process on the invocation's account. */
    var made: seq<seq<Byte>>
    var asked: nat
    ghost var heldOrigin: Origin
    ghost var given: seq<Origin>
    ghost var mints: nat

    ghost function Fetching(): FetchState
      reads this
    {
      FetchState(if fetchHeld.None? then None else Some(Held(fetchFor, fetchHeld.value, heldOrigin)), made, given)
    }

    ghost function Minting(): MintState
      reads this
    {
      MintState(minted, asked, mints)
    }

    constructor (fetching: Outside, minting: MintOutside)
      ensures Fetching() == FetchState(None, [], []) && Minting() == MintState(false, 0, 0)
      ensures this.fetching == fetching && this.minting == minting
    {
      this.fetching, this.minting := fetching, minting;
      fetchFor, fetchHeld, minted, made, asked := [], None, false, [], 0;
      heldOrigin, given, mints := Inherited, [], 0;
    }

    /** forRequest: a copy of the load-time state with the request's own fields replaced.  The mint starts
        afresh; the hold is not among the fields replaced. */
    constructor ForRequest(base: HostState, fetching: Outside, minting: MintOutside)
      ensures Fetching() == HostCalls.ForRequest(base.Fetching()) && Minting() == MintState(false, 0, 0)
      ensures this.fetching == fetching && this.minting == minting
    {
      this.fetching, this.minting := fetching, minting;
      fetchFor, fetchHeld, minted, made, asked := base.fetchFor, base.fetchHeld, false, [], 0;
      heldOrigin, given, mints := Inherited, [], 0;
    }

    method ReleaseFetch()
      modifies `fetchFor, `fetchHeld
      ensures fetchHeld == None && fetchFor == []
    {
      fetchFor, fetchHeld := [], None;
    }

    method HoldFetch(raw: seq<Byte>, encoded: seq<Byte>, written: int, capacity: U32)
      modifies `fetchFor, `fetchHeld
      ensures Delivered(written, capacity, encoded) ==> fetchHeld == None
      ensures !Delivered(written, capacity, encoded) ==> fetchHeld == Some(encoded) && fetchFor == raw
    {
      if written >= 0 && |encoded| <= capacity {
        ReleaseFetch();
        return;
      }
      fetchFor, fetchHeld := raw, Some(encoded);
    }

    /** network_fetch. */
    method NetworkFetch(mem: array<Byte>, reqPtr: U32, reqLen: U32, outPtr: U32, outCap: U32) returns (n: int)
      modifies this, mem
      ensures Minting() == old(Minting())
      ensures (Fetching(), n, mem[..])
              == FetchStep(fetching, old(Fetching()),
                           Call(ReadFrom(old(mem[..]), reqPtr, reqLen), outPtr, outCap, old(mem[..])))
    {
      var raw := ReadBytes(mem, reqPtr, reqLen);
      if raw.None? {
        return STATUS_INVALID;
      }
      var encoded: seq<Byte>;
      ghost var origin := heldOrigin;
      if fetchHeld.Some? && fetchFor == raw.value {
        encoded := fetchHeld.value;
      } else {
        if !fetching.parses(raw.value) {
          return STATUS_INVALID;
        }
        var answer := fetching.Answers(|made|);
        origin := Asked(|made|);
        made := made + [raw.value];
        if answer.Unencodable? {
          ReleaseFetch();
          return STATUS_INTERNAL;
        }
        encoded := answer.bytes;
      }
      n := WriteOut(mem, outPtr, outCap, encoded);
      HoldFetch(raw.value, encoded, n, outCap);
      if Delivered(n, outCap, encoded) { given := given + [origin]; } else { heldOrigin := origin; }
    }

    /** session_mint: the capacity is looked at before anything is minted. */
    method SessionMint(mem: array<Byte>, claimPtr: U32, claimLen: U32, outPtr: U32, outCap: U32) returns (n: int)
      modifies this, mem
      ensures Fetching() == old(Fetching())
      ensures (Minting(), n, mem[..])
              == MintStep(minting, old(Minting()),
                          Call(ReadFrom(old(mem[..]), claimPtr, claimLen), outPtr, outCap, old(mem[..])))
    {
      var raw := ReadBytes(mem, claimPtr, claimLen);
      if raw.None? {
        return STATUS_INVALID;
      }
      if !minting.inRequest {
        return STATUS_NOT_FOUND;
      }
      if minted {
        return STATUS_INVALID;
      }
      if !minting.hasService {
        return STATUS_INTERNAL;
      }
      if !minting.claimParses(raw.value) {
        return STATUS_INVALID;
      }
      if outCap < MINTED_SESSION_MAX_BYTES {
        return MINTED_SESSION_MAX_BYTES;
      }
      var decision := minting.decide(asked);
      asked := asked + 1;
      if decision.Refused? {
        return if decision.status < 0 then decision.status else STATUS_INTERNAL;
      }
      mints := mints + 1;
      var encoded := Utf8.Encode(MintedRecord(decision.expiresAt, decision.secondFactor));
      if |encoded| > MINTED_SESSION_MAX_BYTES {
        minted := true;
        return STATUS_INTERNAL;
      }
      minted := true;
      n := WriteOut(mem, outPtr, outCap, encoded);
    }
  }

  // ---- the guest side ----------------------------------------------------------------------------

  const INITIAL_BUFFER := 512
  const GROWTH_ATTEMPTS := 4
  const MAX_GUEST_MEMORY := 128 * 0x1_0000

  /** What a wrapper gives its caller; a guest that cannot grow its memory traps. */
  datatype SdkResult = Bytes(value: seq<Byte>) | Error(status: int) | Trapped

  /** A guest's linear memory: it only grows, up to the pages one instance may hold. */
  class Guest {
    var mem: array<Byte>

    ghost predicate Valid()
      reads this
    {
      mem.Length <= MAX_GUEST_MEMORY
    }

    constructor (initial: seq<Byte>)
      requires |initial| <= MAX_GUEST_MEMORY
      ensures Valid() && fresh(mem) && mem[..] == initial
    {
      mem := new Byte[|initial|](i requires 0 <= i < |initial| => initial[i]);
    }

    /** make([]byte, n): room after everything already there, or None when the instance is at its limit. */
    method Alloc(n: nat) returns (ptr: Option<U32>)
      requires Valid()
      modifies this
      ensures Valid() && (mem == old(mem) || fresh(mem))
      ensures ptr.None? <==> old(mem.Length) + n > MAX_GUEST_MEMORY
      ensures ptr.None? ==> mem == old(mem)
      ensures ptr.Some? ==> ptr.value == old(mem.Length) && mem.Length == old(mem.Length) + n
      ensures old(mem[..]) <= mem[..]
    {
      if mem.Length + n > MAX_GUEST_MEMORY {
        return None;
      }
      var before := mem;
      var size := before.Length;
      mem := new Byte[size + n](_ => 0);
      for i := 0 to size
        modifies mem
        invariant mem[..i] == before[..i]
      {
        mem[i] := before[i];
      }
      ptr := Some(size);
    }
  }

  lemma ReadFromPrefix(start: seq<Byte>, mem: seq<Byte>, ptr: U32, n: U32)
    requires start <= mem && ptr + n <= |start|
    ensures ReadFrom(mem, ptr, n) == if n > 65536 then None else Some(start[ptr..ptr + n])
  {
    ReadsExactly(mem, ptr, n);
    hide ReadFrom;
    var r := ReadFrom(mem, ptr, n);
    if r.Some? { assert r.value == start[ptr..ptr + n]; }
  }

  lemma UntouchedBelow(start: seq<Byte>, mem: seq<Byte>, mem': seq<Byte>, ptr: nat)
    requires start <= mem && |start| <= ptr && |mem'| == |mem| && forall i :: 0 <= i < ptr && i < |mem| ==> mem'[i] == mem[i]
    ensures start <= mem'
  {}

  predicate HeldFor(s: FetchState, request: seq<Byte>) { s.hold.Some? && s.hold.value.request == request }

  /** What the next call for a request will be answered with, and where that comes from: the answer held for
      it, or the world's next. */
  function NextAnswer(o: Outside, s: FetchState, request: seq<Byte>): Answer {
    if HeldFor(s, request) then Encoded(s.hold.value.answer) else o.Answers(|s.made|)
  }

  function NextOrigin(s: FetchState, request: seq<Byte>): Origin {
    if HeldFor(s, request) then s.hold.value.origin else Asked(|s.made|)
  }

  function NextMade(s: FetchState, request: seq<Byte>): seq<seq<Byte>> {
    if HeldFor(s, request) then s.made else s.made + [request]
  }

  /** What a call gives when its buffer is addressable and its request readable and well formed. */
  ghost predicate Outcome(o: Outside, s: FetchState, request: seq<Byte>, size: nat, n: int, s': FetchState, got: seq<Byte>) {
    && s'.made == NextMade(s, request)
    && match NextAnswer(o, s, request)
       case Unencodable => n == STATUS_INTERNAL
       case Encoded(bytes) =>
         if |bytes| > MAX_INT32 then n == STATUS_INTERNAL
         else if |bytes| > size then
           n == |bytes| && s'.hold == Some(Held(request, bytes, NextOrigin(s, request))) && s'.given == s.given
         else n == |bytes| && got == bytes && s'.hold == None && s'.given == s.given + [NextOrigin(s, request)]
  }

  /** The bytes a guest points at, if they are no more than the host reads. */
  function Record(mem: seq<Byte>, ptr: nat, n: nat): Option<seq<Byte>>
    requires ptr + n <= |mem|
  {
    if n > 65536 then None else Some(mem[ptr..ptr + n])
  }

  /** A record the host will answer: one that is short enough and is held or parses. */
  predicate Answerable(o: Outside, s: FetchState, raw: Option<seq<Byte>>) {
    raw.Some? && (HeldFor(s, raw.value) || o.parses(raw.value))
  }

  lemma StepOutcome(o: Outside, s: FetchState, c: Call)
    requires c.ptr + c.capacity <= |c.mem|
    ensures var (s', n, mem) := FetchStep(o, s, c);
            && |mem| == |c.mem| && (forall i :: 0 <= i < c.ptr ==> mem[i] == c.mem[i])
            && (if Answerable(o, s, c.raw) then Outcome(o, s, c.raw.value, c.capacity, n, s', ReadAt(mem, c.ptr, n))
                else s' == s && n == STATUS_INVALID)
  {
    if Answerable(o, s, c.raw) && NextAnswer(o, s, c.raw.value).Encoded? {
      AllOrNothing(c.mem, c.ptr, c.capacity, NextAnswer(o, s, c.raw.value).bytes);
    }
  }

  /** What one call of the wrapper amounts to for a record the host answers. */
  ghost predicate Fetched(o: Outside, s: FetchState, request: seq<Byte>, memory: nat, result: SdkResult, calls: nat,
                          s': FetchState) {
    && (calls > 0 ==> s'.made == NextMade(s, request))
    && match result
       case Bytes(value) =>
         NextAnswer(o, s, request) == Encoded(value) && s'.hold.None? && s'.given == s.given + [NextOrigin(s, request)]
       case Error(status) =>
         status == STATUS_INTERNAL
         && (NextAnswer(o, s, request).Unencodable? || |NextAnswer(o, s, request).bytes| > MAX_INT32)
       case Trapped =>
         memory + INITIAL_BUFFER + (if NextAnswer(o, s, request).Encoded? then |NextAnswer(o, s, request).bytes| else 0)
           > MAX_GUEST_MEMORY
  }

  /** The generated NetworkFetch, over any record in the guest's memory and whatever the host holds.  One call
      asks the world exactly once whatever size it answers, or not at all when the host already holds an answer
      to the request; it hands back that answer and nothing else, needs at most two host calls, and leaves the
      hold empty unless the answer could never be delivered.  A record the host refuses changes nothing. */
  method NetworkFetch(host: HostState, guest: Guest, reqPtr: U32, reqLen: U32) returns (result: SdkResult, calls: nat)
    requires guest.Valid() && reqPtr + reqLen <= guest.mem.Length
    modifies host, guest, guest.mem
    ensures guest.Valid() && (guest.mem == old(guest.mem) || fresh(guest.mem)) && old(guest.mem[..]) <= guest.mem[..]
    ensures calls <= 2 && host.Minting() == old(host.Minting())
    ensures calls == 0 ==> result.Trapped? && host.Fetching() == old(host.Fetching())
    ensures var raw := Record(old(guest.mem[..]), reqPtr, reqLen);
            if Answerable(host.fetching, old(host.Fetching()), raw) then
              Fetched(host.fetching, old(host.Fetching()), raw.value, old(guest.mem.Length), result, calls, host.Fetching())
            else host.Fetching() == old(host.Fetching()) && (calls > 0 ==> result == Error(STATUS_INVALID) && calls == 1)
  {
    ghost var start, first := guest.mem[..], host.Fetching();
    ghost var raw := Record(start, reqPtr, reqLen);
    ghost var good := Answerable(host.fetching, first, raw);
    calls := 0;
    var size: nat := INITIAL_BUFFER;
    var buf := guest.Alloc(size);
    if buf.None? {
      return Trapped, calls;
    }
    hide FetchStep, Outside.Answers, ReadFrom;
    for attempt := 0 to GROWTH_ATTEMPTS
      invariant attempt == calls <= 1 && buf.Some?
      invariant guest.Valid() && (guest.mem == old(guest.mem) || fresh(guest.mem))
      invariant |start| <= buf.value && buf.value + size == guest.mem.Length && start <= guest.mem[..]
      invariant host.Minting() == old(host.Minting())
      invariant attempt == 0 ==> host.Fetching() == first && guest.mem.Length == |start| + INITIAL_BUFFER
      invariant attempt == 1 ==>
                  good && var answer := NextAnswer(host.fetching, first, raw.value);
                  answer.Encoded? && size == |answer.bytes| <= MAX_INT32
                  && host.Fetching() == FetchState(Some(Held(raw.value, answer.bytes, NextOrigin(first, raw.value))),
                                                   NextMade(first, raw.value), first.given)
    {
      ghost var mem := guest.mem[..];
      ReadFromPrefix(start, mem, reqPtr, reqLen);
      StepOutcome(host.fetching, host.Fetching(), Call(raw, buf.value, size, mem));
      var n := host.NetworkFetch(guest.mem, reqPtr, reqLen, buf.value, size);
      calls := calls + 1;
      UntouchedBelow(start, mem, guest.mem[..], buf.value);
      if n < 0 {
        return Error(n), calls;
      }
      if n <= size {
        return Bytes(ReadAt(guest.mem[..], buf.value, n)), calls;
      }
      size := n;
      buf := guest.Alloc(n);
      if buf.None? {
        return Trapped, calls;
      }
    }
    assert false;
  }

  /** What the wrapper gives for a claim: the record of the session the service answers it with, where the claim
      parses, the request has not minted and the host can ask; otherwise the status that says why not. */
  ghost predicate Claimed(o: MintOutside, s: MintState, raw: Option<seq<Byte>>, result: SdkResult) {
    if raw.None? then result == Error(STATUS_INVALID)
    else if !o.inRequest then result == Error(STATUS_NOT_FOUND)
    else if s.minted then result == Error(STATUS_INVALID)
    else if !o.hasService then result == Error(STATUS_INTERNAL)
    else if !o.claimParses(raw.value) then result == Error(STATUS_INVALID)
    else match o.decide(s.asked)
      case Refused(status) => result == Error(if status < 0 then status else STATUS_INTERNAL)
      case Session(expiresAt, secondFactor) =>
        var record := Utf8.Encode(MintedRecord(expiresAt, secondFactor));
        result == if |record| > 84 then Error(STATUS_INTERNAL) else Bytes(record)
  }

  lemma StepIsClaimed(o: MintOutside, s: MintState, c: Call)
    requires c.capacity == INITIAL_BUFFER && c.ptr + c.capacity <= |c.mem|
    ensures var (t, n, mem) := MintStep(o, s, c);
            Claimed(o, s, c.raw, if n < 0 then Error(n) else Bytes(ReadAt(mem, c.ptr, n)))
  {
    hide Utf8.Encode, MintedRecord;
    if Proper(o, c) && !s.minted {
      MintAnswers(o, s, c);
      if 0 <= MintStep(o, s, c).1 <= c.capacity { MintDelivers(o, s, c); }
    } else {
      MintRefusals(o, s, c);
    }
  }

  /** The generated SessionMint.  Its first buffer already holds the record's bound, so there is one host
      call and never a retry, whatever the service decides. */
  method SessionMint(host: HostState, guest: Guest, claimPtr: U32, claimLen: U32)
    returns (result: SdkResult, calls: nat)
    requires guest.Valid()
    modifies host, guest, guest.mem
    ensures guest.Valid() && calls <= 1 && (calls == 0 <==> result.Trapped?)
    ensures host.Fetching() == old(host.Fetching())
    ensures result.Trapped? ==> host.Minting() == old(host.Minting())
    ensures result.Bytes? ==> host.Minting() == MintState(true, old(host.asked) + 1, old(host.mints) + 1) && !old(host.minted)
    ensures result.Bytes? ==>
              var d := host.minting.decide(old(host.asked));
              d.Session? && result.value == Utf8.Encode(MintedRecord(d.expiresAt, d.secondFactor))
    ensures result.Error? ==> result.status < 0
    ensures !result.Trapped? && claimPtr + claimLen <= old(guest.mem.Length) ==>
              Claimed(host.minting, old(host.Minting()), Record(old(guest.mem[..]), claimPtr, claimLen), result)
  {
    ghost var start := guest.mem[..];
    calls := 0;
    var size: nat := INITIAL_BUFFER;
    var buf := guest.Alloc(size);
    if buf.None? {
      return Trapped, calls;
    }
    hide MintStep, MintedRecord, Utf8.Encode, ReadFrom;
    for attempt := 0 to GROWTH_ATTEMPTS
      invariant attempt == 0 && calls == 0 && buf.Some? && size == INITIAL_BUFFER
      invariant guest.Valid() && (guest.mem == old(guest.mem) || fresh(guest.mem))
      invariant host.Minting() == old(host.Minting()) && host.Fetching() == old(host.Fetching())
      invariant buf.value + size == guest.mem.Length && start <= guest.mem[..]
    {
      ghost var call := Call(ReadFrom(guest.mem[..], claimPtr, claimLen), buf.value, size, guest.mem[..]);
      MintRefuses(host.minting, host.Minting(), call);
      StepIsClaimed(host.minting, host.Minting(), call);
      if claimPtr + claimLen <= |start| { ReadFromPrefix(start, guest.mem[..], claimPtr, claimLen); }
      ghost var before := host.Minting();
      var n := host.SessionMint(guest.mem, claimPtr, claimLen, buf.value, size);
      calls := calls + 1;
      if 0 <= n <= size { MintDelivers(host.minting, before, call); }
      if n < 0 {
        return Error(n), calls;
      }
      if n <= size {
        return Bytes(ReadAt(guest.mem[..], buf.value, n)), calls;
      }
      assert false;
    }
    assert false;
  }

  /** k calls of the wrapper are k requests, in order, repeats of one request included; when every one
      comes back, nothing is left held. */
  method FetchEach(host: HostState, guest: Guest, places: seq<(U32, U32)>, ghost requests: seq<seq<Byte>>)
    returns (done: nat, delivered: bool)
    requires guest.Valid() && host.Fetching().hold.None? && |places| == |requests|
    requires forall i :: 0 <= i < |places| ==>
               places[i].0 + places[i].1 <= guest.mem.Length
               && places[i].1 <= 65536 && guest.mem[..][places[i].0..places[i].0 + places[i].1] == requests[i]
               && host.fetching.parses(requests[i])
    modifies host, guest, guest.mem
    ensures done <= |requests| && host.made == old(host.made) + requests[..done]
    ensures delivered ==> done == |requests| && host.Fetching().hold.None?
  {
    done := 0;
    ghost var start := guest.mem[..];
    while done < |places|
      invariant done <= |places|
      invariant guest.Valid() && (guest.mem == old(guest.mem) || fresh(guest.mem)) && start <= guest.mem[..]
      invariant host.made == old(host.made) + requests[..done] && host.Fetching().hold.None?
    {
      assert guest.mem[..][places[done].0..places[done].0 + places[done].1] == requests[done];
      ghost var before := guest.mem[..];
      var result, calls := NetworkFetch(host, guest, places[done].0, places[done].1);
      assert start <= before <= guest.mem[..];
      assert requests[..done + 1] == requests[..done] + [requests[done]];
      if !result.Bytes? {
        return if calls > 0 then done + 1 else done, false;
      }
      done := done + 1;
    }
    delivered := true;
  }
}
