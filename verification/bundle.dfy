/** Add-on bundles: one member rule that two container walkers share, and the bounds that keep a small
    download from becoming a large allocation. */
module Bundles {
  import opened Wrappers
  import opened Utf8
  import opened Numerals

  const MANIFEST_FILE := "addon.json"
  const MAX_MEMBERS := 3
  const MAX_INFLATED := 32 * 0x10_0000
  const RATIO := 50
  const RATIO_FLOOR := 0x10_0000

  /** The length of a byte slice. */
  type Length = x: int | 0 <= x < 0x8000_0000_0000_0000

  // ---- the limit -----------------------------------------------------------------------------------------

  function Max(a: int, b: int): int { if a < b then b else a }

  function Min(a: int, b: int): int { if a < b then a else b }

  /** What a container of this many fetched bytes may amount to: fifty times as much, no less than the floor
      and no more than the cap. */
  function Limit(compressed: Length): (limit: Length)
    ensures RATIO_FLOOR <= limit <= MAX_INFLATED
  {
    Min(MAX_INFLATED, Max(RATIO_FLOOR, RATIO * compressed))
  }

  /** bundleInflatedLimit: its early return is what keeps the 64-bit product from wrapping to less than the floor. */
  method InflatedLimit(compressed: Length) returns (limit: Int64)
    ensures limit == Limit(compressed)
  {
    if compressed >= MAX_INFLATED {
      return MAX_INFLATED;
    }
    limit := Wrap64(compressed * RATIO);
    if limit < RATIO_FLOOR {
      limit := RATIO_FLOOR;
    }
    if limit > MAX_INFLATED {
      limit := MAX_INFLATED;
    }
  }

  /** More fetched never means less allowed, and never less than the ratio or the cap allows. */
  lemma LimitIsMonotone(a: Length, b: Length)
    requires a <= b
    ensures Limit(a) <= Limit(b) && Min(RATIO * a, MAX_INFLATED) <= Limit(a)
  {
  }

  // ---- streams -------------------------------------------------------------------------------------------

  /** A reader: the bytes it would give, and whether it then fails instead of ending. */
  datatype Stream = Stream(bytes: seq<Byte>, fails: bool)

  /** io.ReadAll of an io.LimitReader: what was read, and whether an error was met on the way. */
  function ReadLimited(r: Stream, n: nat): (seq<Byte>, bool) {
    if |r.bytes| >= n then (r.bytes[..n], false) else (r.bytes, r.fails)
  }

  datatype Refusal =
    | NotABundle
    | TooManyEntries | NotPlain(name: string) | NotBare(name: string) | Twice(name: string)
    | BadMethod(name: string) | NoManifest | NotOneModule(others: nat)
    | PastBudget(name: string) | OverInflated(limit: Length)

  /** What the rest of an install is handed. */
  datatype Bundle = Bundle(manifest: seq<Byte>, moduleName: string, code: seq<Byte>)

  /** The gzip layer, over the stream a gzip reader gives; `header` says whether one could be made. */
  function Inflate(fetched: Length, header: bool, zr: Stream): Result<seq<Byte>, Refusal> {
    var limit := Limit(fetched);
    var (inner, failed) := ReadLimited(zr, limit + 1);
    if !header || failed then Err(NotABundle)
    else if |inner| > limit then Err(OverInflated(limit))
    else Ok(inner)
  }

  /** Inflating accepts exactly the streams that end within the limit, whole, and takes at most one byte
      past it out of any other. */
  lemma InflateExactly(fetched: Length, header: bool, zr: Stream)
    ensures Inflate(fetched, header, zr).Ok? <==> header && !zr.fails && |zr.bytes| <= Limit(fetched)
    ensures Inflate(fetched, header, zr).Ok? ==> Inflate(fetched, header, zr).value == zr.bytes
    ensures |ReadLimited(zr, Limit(fetched) + 1).0| <= Limit(fetched) + 1
    ensures Inflate(fetched, header, zr) == Err(OverInflated(Limit(fetched))) <==> header && |zr.bytes| > Limit(fetched)
  {
  }

  // ---- declared sizes --------------------------------------------------------------------------------------

  function Sum(sizes: seq<UInt64>): nat {
    if sizes == [] then 0 else Sum(sizes[..|sizes| - 1]) + sizes[|sizes| - 1]
  }

  lemma {:induction false} SumPrefix(sizes: seq<UInt64>, i: nat)
    requires i <= |sizes|
    ensures Sum(sizes[..i]) <= Sum(sizes)
  {
    if i == |sizes| {
      assert sizes[..i] == sizes;
    } else {
      assert sizes[..|sizes| - 1][..i] == sizes[..i];
      SumPrefix(sizes[..|sizes| - 1], i);
    }
  }

  /** The zip reader's size loop.  Every operation is on 64 unsigned bits, every size is the archive's own
      word, and the total it refuses is the true one. */
  method CheckDeclared(sizes: seq<UInt64>, limit: Length) returns (fits: bool)
    ensures fits <==> Sum(sizes) <= limit
  {
    var declared: UInt64 := 0;
    for i := 0 to |sizes|
      invariant declared == Sum(sizes[..i]) <= limit
    {
      assert sizes[..i + 1][..i] == sizes[..i];
      SumPrefix(sizes, i + 1);
      if sizes[i] > WrapU64(limit - declared) {
        return false;
      }
      declared := WrapU64(declared + sizes[i]);
    }
    assert sizes[..|sizes|] == sizes;
    fits := true;
  }

  function WrappedSum(sizes: seq<UInt64>): UInt64 {
    if sizes == [] then 0 else WrapU64(WrappedSum(sizes[..|sizes| - 1]) + sizes[|sizes| - 1])
  }

  /** Comparing the total afterwards would not do: it is the true total modulo 2^64, and two entries of 2^63 bytes
      each would make nothing. */
  lemma {:induction false} WrappedSumIsModular(sizes: seq<UInt64>)
    ensures WrappedSum(sizes) == Sum(sizes) % 0x1_0000_0000_0000_0000
  {
    if sizes != [] {
      WrappedSumIsModular(sizes[..|sizes| - 1]);
      ModularAdd(Sum(sizes[..|sizes| - 1]), sizes[|sizes| - 1]);
    }
  }

  lemma ModularAdd(a: nat, b: nat)
    ensures (a % 0x1_0000_0000_0000_0000 + b) % 0x1_0000_0000_0000_0000 == (a + b) % 0x1_0000_0000_0000_0000
  {
  }

  // ---- the member rule ---------------------------------------------------------------------------------------

  predicate IsBareFilename(name: string) {
    name != "" && name != "." && name != ".."
    && forall i :: 0 <= i < |name| ==> name[i] != '/' && name[i] != '\\' && name[i] != '\0'
  }

  /** The same of the name as a set of characters. */
  lemma BareNames(name: string)
    ensures IsBareFilename(name) <==> name !in ["", ".", ".."] && '/' !in name && '\\' !in name && '\0' !in name
  {
  }

  method CheckBareFilename(name: string) returns (bare: bool)
    ensures bare == IsBareFilename(name)
  {
    if name == "" || name == "." || name == ".." {
      return false;
    }
    for i := 0 to |name|
      invariant forall k :: 0 <= k < i ==> name[k] != '/' && name[k] != '\\' && name[k] != '\0'
    {
      if name[i] == '/' || name[i] == '\\' || name[i] == '\0' {
        return false;
      }
    }
    bare := true;
  }

  /** One entry of a container: its header, and the reader its content comes through.  `stored` and
      `opens` are a zip's own questions; `declared` is a size the archive claims. */
  datatype Entry = Entry(name: string, plain: bool, body: Stream, declared: UInt64, stored: bool, opens: bool)

  /** The rule's state as a value. */
  datatype Members = Members(seen: nat, budget: int, files: map<string, seq<Byte>>, others: seq<string>)

  const NO_MEMBERS := Members(0, MAX_INFLATED, map[], [])

  ghost predicate Consistent(m: Members) {
    m.budget >= 0 && forall i :: 0 <= i < |m.others| ==> m.others[i] in m.files
  }

  function HeaderRefusal(m: Members, name: string, plain: bool): Option<Refusal> {
    if m.seen + 1 > MAX_MEMBERS then Some(TooManyEntries)
    else if !plain then Some(NotPlain(name))
    else if !IsBareFilename(name) then Some(NotBare(name))
    else if name in m.files then Some(Twice(name))
    else None
  }

  function ReadRefusal(budget: nat, name: string, body: Stream): Option<Refusal> {
    var (content, failed) := ReadLimited(body, budget + 1);
    if failed then Some(NotABundle) else if |content| > budget then Some(PastBudget(name)) else None
  }

  function Admit(m: Members, name: string, content: seq<Byte>): Members {
    m.(budget := m.budget - |content|, files := m.files[name := content],
       others := if name == MANIFEST_FILE then m.others else m.others + [name])
  }

  function Outcome(m: Members): Result<Bundle, Refusal>
    requires Consistent(m)
  {
    if MANIFEST_FILE !in m.files then Err(if m.seen == 0 then NotABundle else NoManifest)
    else if |m.others| != 1 then Err(NotOneModule(|m.others|))
    else Ok(Bundle(m.files[MANIFEST_FILE], m.others[0], m.files[m.others[0]]))
  }

  /** The bytes of every file held. */
  ghost function Held(files: map<string, seq<Byte>>): nat {
    if files == map[] then 0
    else
      var name :| name in files;
      |files[name]| + Held(files - {name})
  }

  lemma {:induction false} HeldWithout(files: map<string, seq<Byte>>, name: string)
    requires name in files
    ensures Held(files) == |files[name]| + Held(files - {name})
    decreases |files|
  {
    var first :| first in files && Held(files) == |files[first]| + Held(files - {first});
    if first != name {
      HeldWithout(files - {first}, name);
      HeldWithout(files - {name}, first);
      assert files - {first} - {name} == files - {name} - {first};
    }
  }

  lemma HeldWith(files: map<string, seq<Byte>>, name: string, content: seq<Byte>)
    requires name !in files
    ensures Held(files[name := content]) == Held(files) + |content|
  {
    HeldWithout(files[name := content], name);
    assert files[name := content] - {name} == files;
  }

  class BundleMembers {
    var seen: nat
    var budget: Int64
    var files: map<string, seq<Byte>>
    var others: seq<string>

    ghost function View(): Members
      reads this
    {
      Members(seen, budget, files, others)
    }

    /** The budget is what the cap has left over the files held. */
    ghost predicate Valid()
      reads this
    {
      Consistent(View()) && budget + Held(files) == MAX_INFLATED
    }

    constructor ()
      ensures Valid() && View() == NO_MEMBERS
    {
      seen, budget, files, others := 0, MAX_INFLATED, map[], [];
    }

    method Header(name: string, plain: bool) returns (refusal: Option<Refusal>)
      requires Valid()
      modifies this`seen
      ensures Valid() && View() == old(View()).(seen := old(seen) + 1)
      ensures refusal == HeaderRefusal(old(View()), name, plain)
      ensures refusal.None? ==> name !in files
    {
      seen := seen + 1;
      if seen > MAX_MEMBERS {
        return Some(TooManyEntries);
      }
      if !plain {
        return Some(NotPlain(name));
      }
      var bare := CheckBareFilename(name);
      if !bare {
        return Some(NotBare(name));
      }
      if name in files {
        return Some(Twice(name));
      }
      refusal := None;
    }

    /** Only ever called for a name the header rule passed, so no file is replaced. */
    method Read(name: string, body: Stream) returns (refusal: Option<Refusal>)
      requires Valid() && name !in files
      modifies this`budget, this`files, this`others
      ensures Valid() && refusal == ReadRefusal(old(budget), name, body)
      ensures View() == if refusal.None? then Admit(old(View()), name, body.bytes) else old(View())
    {
      var (content, failed) := ReadLimited(body, budget + 1);
      if failed {
        return Some(NotABundle);
      }
      if |content| > budget {
        return Some(PastBudget(name));
      }
      HeldWith(files, name, content);
      budget := budget - |content|;
      files := files[name := content];
      if name != MANIFEST_FILE {
        others := others + [name];
      }
      refusal := None;
    }

    method Finish() returns (r: Result<Bundle, Refusal>)
      requires Valid()
      ensures r == Outcome(View())
    {
      if MANIFEST_FILE !in files {
        if seen == 0 {
          return Err(NotABundle);
        }
        return Err(NoManifest);
      }
      if |others| != 1 {
        return Err(NotOneModule(|others|));
      }
      r := Ok(Bundle(files[MANIFEST_FILE], others[0], files[others[0]]));
    }
  }

  // ---- the walkers -------------------------------------------------------------------------------------------

  function After(m: Members, e: Entry): Members { Admit(m.(seen := m.seen + 1), e.name, e.body.bytes) }

  /** What stops a walk at an entry: the header's rule, a zip's two questions, then the content. */
  function EntryRefusal(m: Members, e: Entry, zip: bool): Option<Refusal>
    requires Consistent(m)
  {
    var header := HeaderRefusal(m, e.name, e.plain);
    if header.Some? then header
    else if zip && !e.stored then Some(BadMethod(e.name))
    else if zip && !e.opens then Some(NotABundle)
    else ReadRefusal(m.budget, e.name, e.body)
  }

  /** Walking entries into the rule; `whole` says that the container ended rather than broke off. */
  function Walk(m: Members, es: seq<Entry>, zip: bool, whole: bool): Result<Bundle, Refusal>
    requires Consistent(m)
    decreases |es|
  {
    if es == [] then if whole then Outcome(m) else Err(NotABundle)
    else
      var refusal := EntryRefusal(m, es[0], zip);
      if refusal.Some? then Err(refusal.value)
      else Walk(After(m, es[0]), es[1..], zip, whole)
  }

  lemma WalkAt(m: Members, es: seq<Entry>, i: nat, zip: bool, whole: bool)
    requires Consistent(m) && i < |es|
    ensures var refusal := EntryRefusal(m, es[i], zip);
            if refusal.Some? then Walk(m, es[i..], zip, whole) == Err(refusal.value)
            else Consistent(After(m, es[i])) && Walk(m, es[i..], zip, whole) == Walk(After(m, es[i]), es[i + 1..], zip, whole)
  {
    assert es[i..][0] == es[i] && es[i..][1..] == es[i + 1..];
  }

  lemma WalkEnd(m: Members, es: seq<Entry>, zip: bool, whole: bool)
    requires Consistent(m)
    ensures Walk(m, es[|es|..], zip, whole) == if whole then Outcome(m) else Err(NotABundle)
  {
  }

  method ReadTar(es: seq<Entry>, whole: bool) returns (r: Result<Bundle, Refusal>)
    ensures r == Walk(NO_MEMBERS, es, false, whole)
  {
    hide Walk, HeaderRefusal, ReadRefusal, Held, Admit, Outcome;
    var members := new BundleMembers();
    assert es[0..] == es;
    for i := 0 to |es|
      invariant members.Valid()
      invariant Walk(members.View(), es[i..], false, whole) == Walk(NO_MEMBERS, es, false, whole)
    {
      WalkAt(members.View(), es, i, false, whole);
      var refusal := members.Header(es[i].name, es[i].plain);
      if refusal.Some? {
        return Err(refusal.value);
      }
      refusal := members.Read(es[i].name, es[i].body);
      if refusal.Some? {
        return Err(refusal.value);
      }
    }
    WalkEnd(members.View(), es, false, whole);
    if !whole {
      return Err(NotABundle);
    }
    r := members.Finish();
  }

  function Declared(es: seq<Entry>): (sizes: seq<UInt64>)
    ensures |sizes| == |es|
  {
    if es == [] then [] else [es[0].declared] + Declared(es[1..])
  }

  /** A zip's answer; `parsed` says that its central directory could be read. */
  function ZipResult(fetched: Length, parsed: bool, es: seq<Entry>): Result<Bundle, Refusal> {
    if !parsed then Err(NotABundle)
    else if Sum(Declared(es)) > Limit(fetched) then Err(OverInflated(Limit(fetched)))
    else Walk(NO_MEMBERS, es, true, true)
  }

  method ReadZip(fetched: Length, parsed: bool, es: seq<Entry>) returns (r: Result<Bundle, Refusal>)
    ensures r == ZipResult(fetched, parsed, es)
  {
    hide Walk, HeaderRefusal, ReadRefusal, Held, Admit, Outcome, Sum, Declared, Limit;
    if !parsed {
      return Err(NotABundle);
    }
    var limit := InflatedLimit(fetched);
    var fits := CheckDeclared(Declared(es), limit);
    if !fits {
      return Err(OverInflated(limit));
    }
    var members := new BundleMembers();
    assert es[0..] == es;
    for i := 0 to |es|
      invariant members.Valid()
      invariant Walk(members.View(), es[i..], true, true) == Walk(NO_MEMBERS, es, true, true)
    {
      WalkAt(members.View(), es, i, true, true);
      var refusal := members.Header(es[i].name, es[i].plain);
      if refusal.Some? {
        return Err(refusal.value);
      }
      if !es[i].stored {
        return Err(BadMethod(es[i].name));
      }
      if !es[i].opens {
        return Err(NotABundle);
      }
      refusal := members.Read(es[i].name, es[i].body);
      if refusal.Some? {
        return Err(refusal.value);
      }
    }
    WalkEnd(members.View(), es, true, true);
    r := members.Finish();
  }

  // ---- one rule ------------------------------------------------------------------------------------------------

  predicate ZipChecksPass(es: seq<Entry>) { forall i :: 0 <= i < |es| ==> es[i].stored && es[i].opens }

  lemma {:induction false} WalksAgree(m: Members, es: seq<Entry>)
    requires Consistent(m) && ZipChecksPass(es)
    ensures Walk(m, es, true, true) == Walk(m, es, false, true)
    decreases |es|
  {
    if es != [] {
      var refusal := EntryRefusal(m, es[0], true);
      assert EntryRefusal(m, es[0], false) == refusal;
      if refusal.None? { WalksAgree(After(m, es[0]), es[1..]); }
    }
  }

  /** Past what only a zip can be asked, the two walkers are one rule: the same entries get the same
      answer from both, refusals included. */
  lemma OneMemberRule(fetched: Length, es: seq<Entry>)
    requires ZipChecksPass(es) && Sum(Declared(es)) <= Limit(fetched)
    ensures ZipResult(fetched, true, es) == Walk(NO_MEMBERS, es, false, true)
  {
    WalksAgree(NO_MEMBERS, es);
  }

  /** Exactly two plain files with different bare names, one of them the manifest, both readable to the end
      and together within the cap. */
  predicate IsBundle(es: seq<Entry>) {
    && |es| == 2 && es[0].name != es[1].name && (es[0].name == MANIFEST_FILE || es[1].name == MANIFEST_FILE)
    && (forall i :: 0 <= i < 2 ==> es[i].plain && IsBareFilename(es[i].name) && !es[i].body.fails)
    && |es[0].body.bytes| + |es[1].body.bytes| <= MAX_INFLATED
  }

  function BundleOf(es: seq<Entry>): Bundle
    requires |es| == 2
  {
    var (m, o) := if es[0].name == MANIFEST_FILE then (es[0], es[1]) else (es[1], es[0]);
    Bundle(m.body.bytes, o.name, o.body.bytes)
  }

  lemma WalkOne(m: Members, es: seq<Entry>, zip: bool, whole: bool)
    requires Consistent(m) && es != []
    ensures Walk(m, es, zip, whole).Ok? ==> EntryRefusal(m, es[0], zip).None?
    ensures EntryRefusal(m, es[0], zip).None? ==>
              Consistent(After(m, es[0])) && Walk(m, es, zip, whole) == Walk(After(m, es[0]), es[1..], zip, whole)
  {
  }

  /** A walk that passes meets the manifest once and one other file once. */
  lemma {:induction false} WalkLength(m: Members, es: seq<Entry>, zip: bool, whole: bool)
    requires Consistent(m) && Walk(m, es, zip, whole).Ok?
    ensures |es| + |m.others| + (if MANIFEST_FILE in m.files then 1 else 0) == 2
    decreases |es|
  {
    hide IsBareFilename;
    if es != [] {
      WalkOne(m, es, zip, whole);
      WalkLength(After(m, es[0]), es[1..], zip, whole);
    }
  }

  predicate EntryPasses(e: Entry, zip: bool) {
    e.plain && IsBareFilename(e.name) && !e.body.fails && (zip ==> e.stored && e.opens)
  }

  lemma WalkTwo(es: seq<Entry>, zip: bool, whole: bool)
    requires |es| == 2
    ensures Walk(NO_MEMBERS, es, zip, whole).Ok? <==>
              whole && IsBundle(es) && EntryPasses(es[0], zip) && EntryPasses(es[1], zip)
    ensures Walk(NO_MEMBERS, es, zip, whole).Ok? ==> Walk(NO_MEMBERS, es, zip, whole).value == BundleOf(es)
  {
    hide IsBareFilename;
    WalkOne(NO_MEMBERS, es, zip, whole);
    if EntryRefusal(NO_MEMBERS, es[0], zip).None? {
      assert es[1..] == [es[1]] && es[1..][1..] == [];
      WalkOne(After(NO_MEMBERS, es[0]), es[1..], zip, whole);
    }
  }

  /** The tar walker passes exactly the two-file bundles of an archive that ends, and hands on their content. */
  lemma TarPassesExactly(es: seq<Entry>, whole: bool)
    ensures Walk(NO_MEMBERS, es, false, whole).Ok? <==> whole && IsBundle(es)
    ensures whole && IsBundle(es) ==> Walk(NO_MEMBERS, es, false, whole) == Ok(BundleOf(es))
  {
    hide IsBareFilename;
    if |es| == 2 {
      WalkTwo(es, false, whole);
    } else if Walk(NO_MEMBERS, es, false, whole).Ok? {
      WalkLength(NO_MEMBERS, es, false, whole);
    }
  }

  /** The zip walker passes exactly those whose entries are stored or deflated, open, and declare no more
      than the limit. */
  lemma ZipPassesExactly(fetched: Length, parsed: bool, es: seq<Entry>)
    ensures ZipResult(fetched, parsed, es).Ok? <==>
              parsed && Sum(Declared(es)) <= Limit(fetched) && IsBundle(es) && ZipChecksPass(es)
    ensures ZipResult(fetched, parsed, es).Ok? ==> ZipResult(fetched, parsed, es) == Ok(BundleOf(es))
  {
    hide IsBareFilename, Sum, Declared, Limit;
    if |es| == 2 {
      WalkTwo(es, true, true);
    } else if Walk(NO_MEMBERS, es, true, true).Ok? {
      WalkLength(NO_MEMBERS, es, true, true);
    }
  }

  /** Which of the two comes first makes no difference. */
  lemma EitherOrder(a: Entry, b: Entry)
    ensures Walk(NO_MEMBERS, [a, b], false, true).Ok? <==> Walk(NO_MEMBERS, [b, a], false, true).Ok?
    ensures Walk(NO_MEMBERS, [a, b], false, true).Ok? ==>
              Walk(NO_MEMBERS, [a, b], false, true) == Walk(NO_MEMBERS, [b, a], false, true)
  {
    hide IsBareFilename;
    TarPassesExactly([a, b], true);
    TarPassesExactly([b, a], true);
    IsBundleEitherOrder(a, b);
    hide Walk, IsBundle;
  }

  lemma IsBundleEitherOrder(a: Entry, b: Entry)
    ensures IsBundle([a, b]) == IsBundle([b, a])
    ensures IsBundle([a, b]) ==> BundleOf([a, b]) == BundleOf([b, a])
  {
    hide IsBareFilename;
  }

  // ---- every answer --------------------------------------------------------------------------------------------------

  /** The bytes of the first `n` entries. */
  function Sized(es: seq<Entry>, n: nat): nat
    requires n <= |es|
  {
    if n == 0 then 0 else Sized(es, n - 1) + |es[n - 1].body.bytes|
  }

  ghost predicate Named(es: seq<Entry>, n: nat, name: string)
    requires n <= |es|
  {
    exists k :: 0 <= k < n && es[k].name == name
  }

  /** The first `n` entries are files a walk takes in, one by one and together. */
  ghost predicate Taken(es: seq<Entry>, n: nat, zip: bool) {
    && n <= |es| && n <= 3 && Sized(es, n) <= MAX_INFLATED
    && (forall k :: 0 <= k < n ==> EntryPasses(es[k], zip))
    && (forall j, k :: 0 <= j < k < n ==> es[j].name != es[k].name)
  }

  /** The rule's state after `n` entries, whose answer is the walk's from there. */
  lemma {:induction false} WalkTakes(es: seq<Entry>, n: nat, zip: bool, whole: bool) returns (m: Members)
    requires Taken(es, n, zip)
    ensures Consistent(m) && Walk(NO_MEMBERS, es, zip, whole) == Walk(m, es[n..], zip, whole)
    ensures m.seen == n && m.budget == MAX_INFLATED - Sized(es, n)
    ensures forall name :: name in m.files <==> Named(es, n, name)
    ensures |m.others| == n - (if Named(es, n, MANIFEST_FILE) then 1 else 0)
  {
    hide IsBareFilename;
    m := NO_MEMBERS;
    if n == 0 {
      assert es[0..] == es;
    } else {
      var before := WalkTakes(es, n - 1, zip, whole);
      var e := es[n - 1];
      assert es[n - 1..][0] == e && es[n - 1..][1..] == es[n..];
      assert EntryPasses(e, zip) && !Named(es, n - 1, e.name);
      assert EntryRefusal(before, e, zip).None?;
      WalkOne(before, es[n - 1..], zip, whole);
      hide Walk;
      m := After(before, e);
      forall name ensures Named(es, n, name) <==> Named(es, n - 1, name) || name == e.name {
        if name == e.name { assert es[n - 1].name == name; }
      }
    }
  }

  /** The answer to a container whose first entries are taken and whose next one is not. */
  lemma RefusedExactly(es: seq<Entry>, n: nat, zip: bool, whole: bool)
    requires Taken(es, n, zip) && n < |es|
    ensures var e, answer := es[n], Walk(NO_MEMBERS, es, zip, whole);
            && (n == 3 ==> answer == Err(TooManyEntries))
            && (n < 3 && !e.plain ==> answer == Err(NotPlain(e.name)))
            && (n < 3 && e.plain && !IsBareFilename(e.name) ==> answer == Err(NotBare(e.name)))
            && (n < 3 && e.plain && IsBareFilename(e.name) ==>
                  (Named(es, n, e.name) ==> answer == Err(Twice(e.name)))
                  && (!Named(es, n, e.name) ==>
                        (zip && !e.stored ==> answer == Err(BadMethod(e.name)))
                        && (zip && e.stored && !e.opens ==> answer == Err(NotABundle))
                        && ((zip ==> e.stored && e.opens) ==>
                              (Sized(es, n) + |e.body.bytes| > MAX_INFLATED ==> answer == Err(PastBudget(e.name)))
                              && (Sized(es, n) + |e.body.bytes| <= MAX_INFLATED && e.body.fails ==>
                                    answer == Err(NotABundle)))))
  {
    hide IsBareFilename;
    var m := WalkTakes(es, n, zip, whole);
    assert es[n..][0] == es[n];
  }

  /** And to one whose every entry is: what is missing, or the bundle. */
  lemma EndedExactly(es: seq<Entry>, zip: bool, whole: bool)
    requires Taken(es, |es|, zip)
    ensures var answer := Walk(NO_MEMBERS, es, zip, whole);
            && (!whole || es == [] ==> answer == Err(NotABundle))
            && (whole && es != [] && !Named(es, |es|, MANIFEST_FILE) ==> answer == Err(NoManifest))
            && (whole && Named(es, |es|, MANIFEST_FILE) && |es| != 2 ==> answer == Err(NotOneModule(|es| - 1)))
            && (whole && Named(es, |es|, MANIFEST_FILE) && |es| == 2 ==> answer == Ok(BundleOf(es)))
  {
    var m := WalkTakes(es, |es|, zip, whole);
    WalkEnd(m, es, zip, whole);
    if |es| == 2 { WalkTwo(es, zip, whole); }
  }

  // ---- the backstop ----------------------------------------------------------------------------------------------

  /** What the entries' readers really give, all together. */
  function Total(es: seq<Entry>): nat {
    if es == [] then 0 else |es[0].body.bytes| + Total(es[1..])
  }

  /** The member budget refuses nothing that is bounded by something else already. */
  lemma {:induction false} BackstopUnreached(m: Members, es: seq<Entry>, zip: bool, whole: bool)
    requires Consistent(m) && Total(es) <= m.budget
    ensures Walk(m, es, zip, whole).Ok? || !Walk(m, es, zip, whole).error.PastBudget?
    decreases |es|
  {
    hide IsBareFilename;
    if es != [] && EntryRefusal(m, es[0], zip).None? { BackstopUnreached(After(m, es[0]), es[1..], zip, whole); }
  }

  lemma {:induction false} SumFirst(first: UInt64, rest: seq<UInt64>)
    ensures Sum([first] + rest) == first + Sum(rest)
  {
    var all := [first] + rest;
    if rest == [] {
      assert all[..0] == [];
    } else {
      assert all[..|all| - 1] == [first] + rest[..|rest| - 1];
      SumFirst(first, rest[..|rest| - 1]);
    }
  }

  lemma {:induction false} DeclaredCovers(es: seq<Entry>)
    requires forall i :: 0 <= i < |es| ==> |es[i].body.bytes| <= es[i].declared
    ensures Total(es) <= Sum(Declared(es))
  {
    if es != [] {
      DeclaredCovers(es[1..]);
      SumFirst(es[0].declared, Declared(es[1..]));
    }
  }

  /** In particular not a zip whose members keep to the sizes they declared. */
  lemma ZipBackstopUnreached(fetched: Length, es: seq<Entry>)
    requires forall i :: 0 <= i < |es| ==> |es[i].body.bytes| <= es[i].declared
    ensures ZipResult(fetched, true, es).Ok? || !ZipResult(fetched, true, es).error.PastBudget?
  {
    hide IsBareFilename, Walk, Sum, Declared, Total;
    DeclaredCovers(es);
    if Sum(Declared(es)) <= Limit(fetched) { BackstopUnreached(NO_MEMBERS, es, true, true); }
  }
}
