# Add-on host verification

A Dafny model of the logic of LinkCTRL's add-on host (`internal/addon`), of the guest SDK's calling loop, of the
job scheduler and of the demo generator, with proofs of the properties those parts exist for. It verifies with
`dafny verify dfyconfig.toml`.

Code that works by changing things step by step is a `method` with loops over arrays, objects or local state, held to a
function of the same computation; the laws are lemmas about those functions. Protocols with several parties (a browser
and many add-ons, a host and an arbitrary guest, replicas and a database, requests and removals) are state machines over
their steps, and the results hold of every finite run.

| file | what it models |
|---|---|
| `jar.dfy`, `jarhost.dfy` | the cookie jar: its functions and their laws; the host's in-place slice loops |
| `jarjson.dfy`, `base64url.dfy`, `utf8.dfy`, `numerals.dfy` | the encodings a jar is packed with (RFC 8259 as encoding/json writes it, section 5 of RFC 4648, section 3 of RFC 3629), concretely |
| `jarheader.dfy` | what a header reads as, whatever jars are planted in it |
| `jarrun.dfy`, `jarplain.dfy`, `jarlaws.dfy` | the jar in a browser with a clock, against a plain map in which every name has its own lifetime |
| `jarclocks.dfy` | the two clock readings of a response |
| `namespaces.dfy` | the prefix-collision rule and the double loop that reports it |
| `abi.dfy`, `hostcalls.dfy`, `sdk.dfy` | guest memory, the two host functions with side effects, and the generated grow-and-retry loop |
| `logtext.dfy` | the log-text neutralizer, a decoder for it, and errors the host joined |
| `jobs.dfy` | replicas, families, advisory locks, dying connections, start and stop |
| `routing.dfy` | concurrent requests, slots, the state map, gates, loading and removal |
| `bundle.dfy` | the bundle limits, the member rule and the two container walkers |
| `addresses.dfy` | the outbound address allowlist |
| `democlicks.dfy` | the demo click generator |

What the proofs turned up:

- `forRequest` copies the load-time state and replaces neither `fetchFor` nor `fetchHeld`. A module that calls
  `network_fetch` during package initialization with a buffer too small for the class refusal leaves that refusal held,
  and an invocation that repeats the request can be handed it without a request being made
  (`HostCalls.RefusalOutlivesLoading`). `HostCalls.InheritedIsDelivered` says over every sequence of calls exactly when.
- The bound of `escapeModuleText` is kept for every bound of at least the mark's 15 bytes; under a smaller positive one
  it is kept exactly when nothing is written (`LogText.BoundHolds`). Both bounds in use are 4096 or none. Text is cut as
  soon as it passes the bound less the mark, even when it would have fitted the bound itself.
- `checkJarFits` and the later write read the clock separately. What fits at one reading fits at the other unless an
  expiry has gained a digit in between (`JarClocks.StillFits`), and then exactly while the kept entries' document stays
  within 2304 bytes (`JarClocks.FitsExactly`), which it need not (`JarClocks.FitsNoLonger`). The next digit of a Unix
  second comes in the year 2286.
- The int64 nanosecond product of a lifetime is exact for every lifetime whose nanoseconds fit 64 bits, about 292 years,
  and for no longer one (`Jar.ExpiryExactly`); `checkCookie`'s bound of 400 days is well inside.
- First-wins protects a name only within its class. A planted kept jar outranks the host's own session entry of the name,
  because the record overlays the kept jar last (`JarHeader.HostValueSurvives`), and a response that does not set the name
  writes the plant back, so host-written jars need not be disjoint (`JarLaws.CrossedExactly`).
- Two families sharing an advisory key would make a lone replica drop work, so the distinctness of the keys is not only
  enough for it never to skip but necessary (`Jobs.LoneNeverSkips`).

## Model

| member | source | states |
|---|---|---|
| JarLaws.EveryReadIsThePlainMaps | internal/addon/http.go:1138-1346 | after any run of accepted responses by any add-ons, each to a request carrying its own add-on's jars and anything else, however the add-ons' requests overlap, with clock advances, browser closings and changes to other cookies, every jar read of a name no planted cookie has reached is exactly the live value a plain map with per-name lifetimes holds, except a name eviction took, which reads as absent and never as stale |
| JarLaws.UnplantedReads | internal/addon/http.go:1138-1346 | with nothing planted under the add-on's own two names, every read of every name is the plain map's, whatever is planted for others, whatever the order of the header and however long the host reads after the browser sent: a jar that expired on the way changes nothing |
| JarLaws.PlantedReads | internal/addon/http.go:1146-1175 | over any run with anything planted, a name reads from a header with the host's jars first as the plain map says if and only if: its live value is carried by the host's kept jar or no planted kept jar carries it with another value; its absence is not filled by a planted jar of a class the host's does not carry it in |
| JarLaws.CrossedExactly | internal/addon/http.go:1230-1346 | what the host writes holds a name in both classes exactly when the request it answered did and the response neither set nor evicted it |
| JarPlain.RunRefines | internal/addon/http.go:1150-1366 | every run refines the plain map for all add-ons at once, each with jars at its own path that the others' requests do not carry, whatever else the requests carried: what the browser holds is what the host last wrote or has wholly expired, each jar has unique names, and every name no plant has reached is in at most one class and reads as the map says |
| JarHeader.HeaderFirstWins | internal/addon/http.go:1150-1190 | for every header, with any number of jars of one name, each class has unique names and reads every name as the first of its jars that carries it |
| JarHeader.EarlierWins | internal/addon/http.go:1165-1175 | whatever the beginning of a header holds for a name in a class, the whole header reads the same, whatever follows |
| JarHeader.HostValueSurvives | internal/addon/http.go:312-339 | a value the host's own jars give survives any jars behind them exactly when the host's kept jar carries the name, or no planted kept jar carries it readably first, or that one carries the same value |
| JarRun.PlantedTouches | internal/addon/http.go:1165-1175 | jars planted behind the host's reach a name exactly when, in some class, the host's jar does not carry it and the planted ones carry it live and declared |
| JarRun.HostReadsBack | internal/addon/http.go:1150-1202 | from any header in which nothing is planted under the add-on's two names the host reads back the live part of exactly what it wrote; a kept jar that reached its Max-Age before the browser asked or while the request was under way makes no difference |
| JarRun.ResponseHolds | internal/addon/http.go:1300-1346 | the cookies of one response to any request that names the unexpired jars of its own add-on, made after the browser asked and stored at that instant or later, hold exactly the survivors of folding it into what the request carried, in jars that outlive every entry no plant has reached; the reported drop count is the number of entries eviction took |
| JarRun.WrittenExactly | internal/addon/http.go:1292-1346 | all that a response writes, said of the entries that survived: the session jar with no age, the kept jar with one that covers every entry up to the bound and is no longer than the longest-lived needs, a deletion exactly where nothing survives of a jar the browser sent, and nothing else |
| JarRun.KeptJarDiesLast | internal/addon/http.go:1348-1366 | where the host wrote every survivor, the kept jar that reaches the browser dies with the last of them, to the second |
| JarLaws.EvictedReads | internal/addon/http.go:1257-1290 | after any run with nothing planted for the add-on, a read is what a map that loses nothing gives if and only if the name is not one evicted while its value lives and is declared; otherwise it is absent, never another value |
| JarLaws.NothingDropped | internal/addon/http.go:1300-1346 | up to any point of a run by which eviction has dropped nothing, no name is lost |
| JarLaws.LatestIsNeverLost | internal/addon/http.go:811-828 | nothing a response sets is lost to eviction by that response, and no plant reaches past it |
| JarLaws.AcceptedIsReadable | internal/addon/http.go:796-828 | at any point after a response of any run, whatever was planted, the last value it gave a name is what a read returns for as long as it lives, if and only if it has a lifetime or the reading request plants no kept jar carrying the name with another value; any other events may lie between, short of a later response of the add-on that sets or evicts the name or drops its prefix, a plant reaching it, or the browser closing on a session value |
| JarLaws.ReadsDependOnOwnResponses | internal/addon/http.go:1086-1092 | two runs over any sets of unrelated add-ons, each with its own jars in the browser, in which an add-on answered alike at the same times and met no jars but its own give it the same reads: nothing another add-on does, or a visitor plants for one, is visible to it |
| JarLaws.UntouchedReadsAgree | internal/addon/http.go:1165-1175 | with anything planted the same holds of every name no plant has reached that eviction took in both runs or in neither |
| JarLaws.RecordIsJarThenRaw | internal/addon/http.go:312-339 | the cookies of the request record are the jar's value where it has one and the owned raw cookie otherwise |
| JarLaws.RecordAfterRun | internal/addon/http.go:312-339 | after any run the record holds, for a name no plant has reached, the plain map's value, and where that has died, was deleted or was evicted, the raw owned cookie of the name if the header has one |
| JarLaws.JarsAreOutOfReach | internal/addon/manifest.go:707-737 | no prefix a manifest may declare reaches any add-on's jar through the raw header |
| JarLaws.NoSharedCookie | internal/addon/http.go:1215-1222 | unrelated add-ons never own one cookie name between them |
| JarClocks.StillFits | internal/addon/http.go:811-828 | what the acceptance test passes at its clock reading still fits at the write's, unless some expiry is written in more digits by then |
| JarClocks.FitsExactly | internal/addon/http.go:811-828 | a response that fits at one reading fits at another exactly when the kept entries it sets, with that reading's expiries, make a document of at most 2304 bytes |
| JarClocks.FitsAtEitherReading | internal/addon/http.go:811-828 | two readings at which every expiry has as many digits agree about every response |
| JarClocks.FitsNoLonger | internal/addon/http.go:811-828 | the condition is needed: a response filling the jar fits one second before an expiry gains its eleventh digit and not at that second |
| Jar.AcceptedReachesBrowser | internal/addon/http.go:811-828 | in each class the survivors end with exactly the fold-from-empty the acceptance test packed, so eviction takes older entries only |
| Jar.FoldSplits | internal/addon/http.go:1230-1255 | folding a response into held jars is the untouched held entries followed by the same fold from nothing |
| Jar.EvictIsLongest | internal/addon/http.go:1257-1290 | survivors are the longest suffix that packs, survivors and dropped make up the input, and something always packs, so the error return is unreachable |
| Jar.SuffixPacks | internal/addon/http.go:1099-1115 | packed length is monotone: whatever packs, so does each of its suffixes |
| Jar.UnpackPack | internal/addon/http.go:1099-1136 | every jar that packs unpacks to itself, through real JSON text and unpadded base64url, and the size test on reading admits whatever writing allowed |
| Jar.UnpackExactly | internal/addon/http.go:1117-1136 | a value reads as entries exactly when it is at most 3072 bytes of base64url of something the reader takes |
| Jar.MergeFirstWins | internal/addon/http.go:1169-1190 | merging a second jar keeps names unique, adds every new name and leaves the first jar every shared one |
| Jar.AtMostTwoCookies | internal/addon/http.go:1292-1346 | whatever the browser sent and the module set, at most one cookie per lifetime class, under its own name, within 3072 bytes and 400 days |
| Jar.LongestIsMaximum | internal/addon/http.go:1348-1366 | after expired entries are dropped the kept jar's age is the maximum remaining lifetime and its subtraction does not overflow |
| Jar.MaxAgeInRange | internal/addon/http.go:1348-1366 | the age is in 1..maxCookieAge for any jar whatever, wrapped arithmetic included |
| Jar.MaxAgeIsTight | internal/addon/http.go:1348-1366 | no entry the host wrote outlives its jar, and the jar lives exactly as long as its longest entry |
| Jar.ExpiryExact | internal/addon/http.go:1230-1244 | within checkCookie's bound the expiry is the instant meant |
| Jar.ExpiryExactly | internal/addon/http.go:1047-1058 | for any lifetime not negative the expiry is the instant meant exactly while its nanoseconds fit 64 bits |
| Jar.CookieTaken | internal/addon/http.go:914-941 | a cookie is taken exactly when it has a name, neither half carries a character a header gives a meaning to, it lives at most 400 days and a declared prefix begins its name |
| JarHost.EntrySlice.WithoutName | internal/addon/http.go:1247-1255 | filtering in place over the slice's own array leaves exactly the entries of other names, in order |
| JarHost.EntrySlice.KeepLive | internal/addon/http.go:1195-1209 | filtering in place leaves exactly the live entries under declared prefixes, in order |
| JarHost.EntrySlice.MergeJar | internal/addon/http.go:1177-1190 | the loop over a set of taken names appends what the first-wins merge says |
| JarHost.JarsFromHeader | internal/addon/http.go:1150-1162 | reading the header with the slices above gives the merged, filtered jars |
| JarHost.ApplyCookie | internal/addon/http.go:1230-1244 | one cookie moves its name to the end of its class, or out of both |
| JarHost.PackWithEviction | internal/addon/http.go:1273-1290 | the loop ends with a packed value, the survivors and the drop count of the longest packing suffix |
| JarHost.MaxAge | internal/addon/http.go:1355-1366 | the loop computes the lifetime whose range and tightness are proved above |
| JarHost.CheckJarFits | internal/addon/http.go:811-828 | accepts exactly the cookie sets both of whose classes pack from empty |
| JarHost.WriteJars | internal/addon/http.go:1300-1346 | writes the cookies and drop count that the run theorems are about |
| JarHost.WriteClass | internal/addon/http.go:1320-1344 | a class's cookie, its deletion when nothing packs and the browser holds one, or nothing |
| JarJson.ReadInvertsMarshal | internal/addon/http.go:1078-1082 | a reader of the entry list's JSON exists that gives back every list written, names, values and signed expiries included, so the run theorems' reader is not an empty assumption |
| JarJson.MarshalShrinks | internal/addon/http.go:1099-1115 | dropping the oldest entry makes the text strictly shorter or leaves the two-byte empty list |
| JarJson.DocumentIsSafe | internal/addon/http.go:1099-1115 | no document holds a control character, a character HTML gives a meaning to or a JavaScript line separator, whatever the names and values |
| JarJson.EscapesExactly | internal/addon/http.go:1099-1115 | a text is written as it is exactly when it holds none of those, no quote and no backslash |
| Base64Url.RoundTrip | internal/addon/http.go:1109-1130 | unpadded base64url decodes to what was encoded, for every byte sequence |
| Base64Url.EncodedLength | internal/addon/http.go:1110-1114 | the encoding of n bytes has exactly ceil(4n/3) characters, all of one byte |
| Base64Url.Alphabet | internal/addon/http.go:1109-1130 | the symbols are the alphabet of section 5 of RFC 4648 in its order, and read back as their places in it |
| Utf8.RoundTrip | internal/addon/hostabi.go:1900-1909 | every text decodes to itself under section 3 of RFC 3629, surrogates and long forms refused |
| Namespaces.RelatedIffShared | internal/addon/host.go:1282-1326 | two different names are related exactly when some string lies in both their namespaces |
| Namespaces.NameCollisions | internal/addon/host.go:1315-1326 | the double loop maps each name that collides to exactly its colliding names, in claim order, and no other name |
| Namespaces.CollisionsAreExact | internal/addon/host.go:1282-1326 | the report is symmetric and a pair is in it exactly when their namespaces meet |
| Namespaces.UnrefusedNames | internal/addon/host.go:1282-1313 | what the report leaves out is pairwise unrelated, the premise of the separation theorems |
| Namespaces.JarNamesCoincide | internal/addon/http.go:1087-1092 | jar names of different add-ons coincide exactly when one add-on is named as the other's kept jar |
| Namespaces.JarNamesDistinct | internal/addon/http.go:1087-1092 | with collisions refused, all jar names are pairwise distinct, kept forms included |
| Abi.ReadBytes | internal/addon/hostabi.go:1911-1933 | refused exactly when something is asked for that is too long or runs past the memory; otherwise byte i read is the byte at the pointer plus i |
| Abi.ReadsExactly | internal/addon/hostabi.go:1911-1933 | the same of the function the host calls are stated with |
| Abi.WriteOut | internal/addon/hostabi.go:1943-1965 | guest memory afterwards and the status, for every pointer, capacity and value |
| Abi.AllOrNothing | internal/addon/hostabi.go:1943-1965 | the guest holds the whole value or its memory is untouched, an answer over the capacity is the exact size to retry at, and each status comes exactly when its reason holds |
| HostCalls.NoAnswerTwice | internal/addon/hostabi.go:539-563 | over any calls with any buffers by any guest, and whatever loading left held, no answer is delivered twice in an invocation, the inherited one included; each was inherited or asked for by the invocation, and a held answer is an undelivered one of the request it is kept under |
| HostCalls.DeliveredIsTheAnswer | internal/addon/hostabi.go:539-563 | at any point of any invocation, what a delivery puts in the guest's buffer is the whole answer inherited or asked for that very request |
| HostCalls.RepeatsAreFree | internal/addon/hostabi.go:656-692 | repeating the held request while it goes undelivered never reaches the wire and changes nothing |
| HostCalls.InheritedIsDelivered | internal/addon/hostabi.go:1620-1637 | over any sequence of calls, an answer left from loading reaches the guest exactly when some call repeats its request with room for it before any call makes another request |
| HostCalls.RefusalOutlivesLoading | internal/addon/hostabi.go:1620-1637 | with such a hold, the refusal met at load is what a later request is handed, and nothing is asked |
| HostCalls.MintsAtMostOnce | internal/addon/hostabi.go:325-441 | over any calls in one request a session is minted at most once, and the request's mark says whether |
| HostCalls.MintsExactly | internal/addon/hostabi.go:325-441 | over any calls in one request: a session is minted if and only if the service answers some readable, well-formed claim with room for the record with one; it is asked about each such claim up to that one and about no other |
| HostCalls.MintStepExactly | internal/addon/hostabi.go:325-390 | one call asks the service exactly when its claim is readable and parses, it is in a request that has not minted, the host has the service and the buffer holds 84 bytes; it mints exactly when the answer is then a session |
| HostCalls.MintRefusals | internal/addon/hostabi.go:325-376 | a call that did not reach the service changes nothing and is told the status of the first condition that failed |
| HostCalls.MintAnswers | internal/addon/hostabi.go:377-441 | one that did is told the service's refusal, or the size of the record it can address |
| HostCalls.TooSmallMeansNothingHappened | internal/addon/hostabi.go:363-376 | an answer larger than the buffer minted nothing, asked nobody and changed no state |
| HostCalls.MintDelivers | internal/addon/hostabi.go:377-441 | a size that fits the buffer comes with a session just minted, its record whole in that buffer |
| HostCalls.RecordFits | internal/addon/hostabi.go:363-376 | the record fits its 84-byte bound exactly for instants of at most 36 bytes, whatever the flag |
| Sdk.HostState.NetworkFetch | internal/addon/hostabi.go:539-563 | the host function over a real memory array is the step the theorems above are about |
| Sdk.HostState.HoldFetch | internal/addon/hostabi.go:683-690 | the answer is kept exactly when it was not delivered |
| Sdk.HostState.SessionMint | internal/addon/hostabi.go:325-441 | the host function over a real memory array is the mint step the theorems above are about |
| Sdk.HostState.ForRequest | internal/addon/hostabi.go:1620-1637 | a request's state forgets a mint and keeps a hold |
| Sdk.NetworkFetch | sdk/abi_gen_wasip1.go:698-713 | for the bytes a guest points at, whatever the host holds, one SDK call makes exactly one request for them whatever the answer's size, or none when an answer to it is held, returns exactly that answer in at most two host calls and leaves the hold empty, unless memory cannot grow to it or it cannot be encoded; a record the host refuses changes nothing |
| Sdk.SessionMint | sdk/abi_gen_wasip1.go:495-510 | the first buffer holds the record's bound, so there is one host call and never a retry after a mint; a well-formed claim in a request that has not minted comes back as the record of the session the service answers with, and every other claim as the status that says why not |
| Sdk.FetchEach | sdk/abi_gen_wasip1.go:698-713 | k calls are k requests for the k stretches of memory pointed at, in order, equal ones included |
| LogText.EscapeModuleText | internal/addon/hostabi.go:934-973 | the loop writes the line the laws below are about, for every bound |
| LogText.HexRune | internal/addon/hostabi.go:1148-1155 | the buffer filled from its end holds the rune's digits in order |
| LogText.BoundHolds | internal/addon/hostabi.go:934-973 | a line is within its bound for every bound of at least the mark, and under a smaller one exactly when it is empty |
| LogText.CutExactly | internal/addon/hostabi.go:947-970 | a line is cut exactly when its spelling is not empty and passes the bound less the mark |
| LogText.CutIsLongest | internal/addon/hostabi.go:947-970 | what a cut line keeps is the longest whole-token prefix within the limit |
| LogText.DecodeEscaped | internal/addon/hostabi.go:1126-1144 | decoding gives back the text with exactly the stripped runes gone |
| LogText.SpellingIsFit | internal/addon/hostabi.go:1115-1144 | no rune the policy escapes, and no newline, carriage return or tab, is in any spelling as itself, for every policy that leaves alone the runes escapes are written in |
| LogText.LineIsFit | internal/addon/hostabi.go:934-973 | nor in any line, but for the mark |
| LogText.PlainIsWritten | internal/addon/hostabi.go:934-973 | text with nothing to escape or strip is written as it is, or as the longest of its prefixes within the limit and the mark |
| LogText.EscapedIsItsNumber | internal/addon/hostabi.go:1126-1144 | an escaped rune becomes its number, four hexadecimal digits in the basic plane and eight past it |
| LogText.EscapingInjective | internal/addon/hostabi.go:1115-1144 | two texts are spelled alike exactly when they differ only in stripped runes |
| LogText.MarkCannotBeForged | internal/addon/hostabi.go:862-873 | no spelling of any text contains the truncation mark anywhere |
| LogText.LineReadsBack | internal/addon/hostabi.go:934-973 | every bounded line reads back as the whole text or as a truncated prefix, and which of the two is never in doubt |
| LogText.FoldToLogLine | internal/addon/hostabi.go:987-1013 | the folding loop writes the line the laws below are about |
| LogText.FoldIsOneRecord | internal/addon/hostabi.go:975-1013 | whatever goes in, a folded line has no newline and is at most 4096 bytes |
| LogText.OneLinePerLeaf | internal/addon/hostabi.go:1077-1113 | the lines of a neutralized error are exactly the escapes of the texts the host joined, nested joins included, however many newlines a module put into any of them |
| LogText.LinesExactly | internal/addon/hostabi.go:1077-1113 | an error that is the join of others has the lines of each of them in order; any other, newlines and all, has one |
| LogText.FoldLeavesAlone | internal/addon/hostabi.go:987-992 | text that is one line within the bound already is left as it is |
| LogText.FoldedErrorIsEscapedText | internal/addon/hostabi.go:975-1113 | neutralizing branch by branch and folding spells what escaping the whole text at once would |
| LogText.FoldedErrorReadsBack | internal/addon/hostabi.go:975-1113 | an uncut record of an error decodes to its text and cannot carry the mark |
| Jobs.OverlapBound | cmd/linkctrl/jobs.go:465-495 | in every interleaving of any number of replicas, overlapping passes of one family number at most one plus the lock connections that died, and all but one of them have lost their connection; with no deaths this is mutual exclusion |
| Jobs.OverlapIsTight | cmd/linkctrl/jobs.go:163-180 | no smaller bound holds: for every number of deaths some run overlaps one pass more |
| Jobs.LoneNeverSkips | cmd/linkctrl/jobs.go:451-495 | a lone replica whose unlocks succeed never counts a skip, however often a family takes its one key, if and only if no two families share a key |
| Jobs.ShippedKeys | cmd/linkctrl/jobs.go:181-202 | the eight shipped keys are distinct and none is the retired one, so the above applies to them |
| Jobs.LeakSkips | cmd/linkctrl/jobs.go:464-495 | that condition on unlocks is needed: after one lost unlock, or one grant whose answer is lost, a lone replica with distinct keys drops a pass |
| Jobs.PassLeavesNoTrace | cmd/linkctrl/jobs.go:464-495 | a goroutine whose lock is free can take it, run and give it back, and nothing is left of the pass but a connection in its own pool |
| Jobs.LockRoundTrip | cmd/linkctrl/jobs.go:464-495 | taking a lock and giving it back changes nothing, however often the session already has it |
| Jobs.LocksAreLive | cmd/linkctrl/jobs.go:163-180 | in every run every lock is a live session's, and a goroutine holds connections of its own replica's pool only |
| Jobs.PoolsArePrivate | cmd/linkctrl/jobs.go:464-495 | no session ever changes pools |
| Jobs.StopIsFinal | cmd/linkctrl/jobs.go:413-449 | once stop has returned, every family goroutine of the replica has left, holding nothing, and no move of it is possible |
| Jobs.StopLasts | cmd/linkctrl/jobs.go:440-449 | and that stays so in every continuation of the run |
| Jobs.StopWaits | cmd/linkctrl/jobs.go:440-449 | stop cannot return while any of them has not left |
| Jobs.StopCanReturn | cmd/linkctrl/jobs.go:413-449 | stop can always return: whatever state a run has left a replica in, its own moves, every one possible without a lock, a connection or another replica, lead to stop's return |
| Routing.HostCallsResolve | internal/addon/hostabi.go:1755-1818 | in every interleaving a live guest's calls are answered against the state of its own request, copied from its own add-on's unless a removal stopped waiting; an add-on's own instance against its own |
| Routing.GuestsAreBounded | internal/addon/http.go:144 | live guests all hold slots, the channel counts exactly the holders, and neither exceeds 16 |
| Routing.BoundIsExact | internal/addon/http.go:144 | n guests are live at once in some run if and only if n is at most 16 |
| Routing.NamesNeverRepeat | internal/addon/http.go:586-600 | generated instance names never repeat and never equal an add-on's name |
| Routing.InstanceNamesCoincide | internal/addon/http.go:586-588 | two instance names coincide exactly when add-on and 64-bit count both do |
| Routing.NothingIsLeftBehind | internal/addon/http.go:519-612 | when every request has finished the state map is exactly the add-ons that are there, every slot is free and every gate empty |
| Routing.RequestsCanFinish | internal/addon/http.go:519-612 | from every state of every run the requests there are can all finish, by moves of their own that need no slot and no other request, which is what NothingIsLeftBehind then speaks of |
| Routing.BaseIsNeverMissing | internal/addon/http.go:530-535 | nobody is inside an add-on that is gone, and the base state a request looks up is there and its own, unless a removal stopped waiting |
| Routing.RemovalWaits | internal/addon/lifecycle.go:655-712 | the count a removal waits on is exactly the requests inside, so one that waited for zero closes nothing under anybody |
| Routing.OneActAtATime | internal/addon/lifecycle.go:396-406 | in every run at most one add-on is being loaded or removed, and it is the one the lifecycle is busy with |
| Routing.PutBackUndoes | internal/addon/lifecycle.go:417-453 | a removal that fails before anything is closed leaves everything as it was |
| Routing.LeavingTurnsAway | internal/addon/set.go:177-190 | nobody arrives at an add-on that has been taken out, and a request that had resolved it before its gate was sealed is turned away with nothing taken |
| Routing.RemovalRuns | internal/addon/lifecycle.go:417-470 | a removal goes all the way whoever is inside, and takes the add-on's name and nothing else |
| Routing.LoadRuns | internal/addon/lifecycle.go:250-380 | a load that fails leaves no trace in the state map, one that succeeds exactly the add-on under its name |
| Bundles.InflatedLimit | internal/addon/bundle.go:267-281 | the 64-bit arithmetic gives fifty times the fetched size between floor and cap, for every length |
| Bundles.LimitIsMonotone | internal/addon/bundle.go:267-281 | more fetched is never allowed less, and never less than the ratio or the cap |
| Bundles.InflateExactly | internal/addon/bundle.go:336-354 | inflating accepts exactly the streams that end within the limit, whole, and reads at most one byte past it |
| Bundles.CheckDeclared | internal/addon/bundle.go:522-535 | the 64-bit size loop passes exactly when the true sum is within the limit |
| Bundles.WrappedSumIsModular | internal/addon/bundle.go:525-529 | a total compared afterwards would be the true sum modulo 2^64 |
| Bundles.CheckBareFilename | internal/addon/bundle.go:568-579 | exactly the names that are not empty, a dot or two, and hold no separator or NUL |
| Bundles.BareNames | internal/addon/bundle.go:568-579 | the names taken are those outside a list of three with none of three characters |
| Bundles.BundleMembers.Header | internal/addon/bundle.go:380-411 | the header rule's refusal, in its order, with the budget conserved |
| Bundles.BundleMembers.Read | internal/addon/bundle.go:425-441 | a member is admitted exactly within what is left, and budget plus bytes held stays the cap |
| Bundles.BundleMembers.Finish | internal/addon/bundle.go:445-460 | a manifest and exactly one other file, or the refusal that says which is missing |
| Bundles.ReadTar | internal/addon/bundle.go:465-486 | the walk over a tar's entries |
| Bundles.ReadZip | internal/addon/bundle.go:517-564 | the walk over a zip's entries after the declared sizes |
| Bundles.OneMemberRule | internal/addon/bundle.go:356-366 | past what only a zip can be asked, both walkers give the same entries the same answer, refusals included |
| Bundles.TarPassesExactly | internal/addon/bundle.go:465-486 | a tar passes exactly when it ends and holds two plain, bare-named, distinct, readable files, one the manifest, within the cap |
| Bundles.ZipPassesExactly | internal/addon/bundle.go:517-564 | a zip passes exactly when that holds, every entry is stored or deflated and opens, and the declared sizes are within the limit |
| Bundles.RefusedExactly | internal/addon/bundle.go:380-441 | the answer to any container at its first entry that is not taken in, said of the entries alone: too many, not plain, not bare, twice, a method not read, past the cap or unreadable, in the source's order |
| Bundles.EndedExactly | internal/addon/bundle.go:445-460 | and at its end: what is missing, or the bundle |
| Bundles.EitherOrder | internal/addon/bundle.go:445-460 | which of the two files comes first makes no difference |
| Bundles.ZipBackstopUnreached | internal/addon/bundle.go:413-441 | the member budget refuses no zip whose members keep to their declared sizes |
| Addresses.RefuseByList | internal/addon/fetch.go:357-383 | the loops allow exactly the addresses inside unicast space and outside twenty-one ranges given by their bounds, and name the rule |
| Addresses.RefuseAddress | internal/addon/fetch.go:333-353 | an address is allowed exactly when its unmapped form is such a destination; otherwise the rule named is the first named predicate's, or the list's |
| Addresses.NamesOnlyWord | internal/addon/fetch.go:326-353 | every address a named predicate refuses is refused by the lists too |
| Addresses.RoutableExactly | internal/addon/fetch.go:205-230 | the prefixes cover exactly 1.0.0.0 through 223.255.255.255 and 2000::/3, and nothing with a zone |
| Addresses.CarvedExactly | internal/addon/fetch.go:232-298 | the carved prefixes cover exactly sixteen IPv4 and five IPv6 ranges given by their bounds, and nothing with a zone |
| Addresses.NamedExactly | internal/addon/fetch.go:339-353 | which rule the named predicates give, by numeric bounds, for every address |
| Addresses.MappedIsUnmapped | internal/addon/fetch.go:333-334 | an IPv4-mapped address with any zone is judged as the IPv4 address in its last 32 bits |
| Addresses.OthersStay | internal/addon/fetch.go:333-334 | and every other address as itself |
| Addresses.CarvedInside | internal/addon/fetch.go:232-298 | every carved range lies inside routable space |
| DemoClicks.DemoClickRows | cmd/lctl/demo_data.go:410-515 | the nested loops generate the history the law below is about |
| DemoClicks.EarlierIsCutShort | cmd/lctl/demo_data.go:410-515 | for one seed, catalogue and day, an earlier run's rows are exactly a later run's rows up to the earlier cutoff, in order |
| DemoClicks.SameHourSameDemo | cmd/lctl/demo_data.go:417-424 | two runs within one hour generate the same history |
| DemoClicks.ClicksOnOwnDays | cmd/lctl/demo_data.go:426-438 | every click is of a link with a weight and an id, on one of that link's own days within the days asked for, and not in the future |
| DemoClicks.NoDayIsSkipped | cmd/lctl/demo_data.go:426-515 | no own day of a link that is over goes without a click |
| DemoClicks.OneDayCounts | cmd/lctl/demo_data.go:440-515 | such a day brings exactly its volume of human clicks and the crawlers that go with it |
| DemoClicks.CrawlersRound | cmd/lctl/demo_data.go:483-486 | which are one at least, and otherwise 8.5 percent rounded |

## Left out

- WebAssembly, WASI, compilation and instance pooling: a guest is an arbitrary sequence of calls over a byte array, or one live instance in a request's life; the redirect and observation paths, which share the slots and the counter, are not part of the model.
- net/http, TLS, DNS and dialling: one fetch attempt is one event with an arbitrary answer, the class refusal included.
- The formats inside gzip, tar and zip: the walkers start from entry lists and readers, and container detection by magic number is not modelled.
- Unicode tables: which runes are escaped or stripped is an arbitrary policy; the fold theorems ask only that a newline is not stripped, which holds of the variation selectors, and the theorems on what reaches a line that the backslash, n, r, t, u, U and the hexadecimal digits are not escaped, which holds of every graphic rune.
- encoding/json as a reader of text the host did not write: the jar theorems hold of every reader that inverts the writer, and one is given.
- Header parsing: a Cookie header is a list of name and value pairs with text values.
- A visitor or an extension deleting the cookie the host itself wrote or changing when it expires: the run theorems let a request carry any values under the jars' names, in any order and number, and let other cookies change at will, but a name the host has written is in the request until it expires, the browser closes or it is written again. The header theorems ask nothing.
- A plant at a longer path than the host's, which a browser sends first: JarLaws.EveryReadIsThePlainMaps covers it, by what it reaches; the exact conditions of JarLaws.PlantedReads and JarRun.PlantedTouches are for the order of section 5.4 of RFC 6265 the source relies on.
- Browser limits other than expiry, such as a browser evicting cookies of its own accord.
- Two requests of one add-on in flight in one browser at once, beyond this: their responses land in the order they were made, and the later request names each jar of the add-on that is in the browser and unexpired when its response lands. Requests of different add-ons overlap freely. The theorems about headers with nothing planted or with the host's jars first also take each request of the add-on to be sent no earlier than its last response was made.
- Fractions of a second: the host's clock is whole Unix seconds, from 1970 to far short of the end of int64.
- The request record apart from its cookies, response decoding apart from cookies, Location and Content-Type checks, and the audit, metrics and logging calls along each path.
- What the scheduled passes do: a pass is a step that runs while its goroutine is in it, the timeouts are any failing step, and the database is its advisory locks. A connection's death frees its locks at once.
- SQL, account deletion, the CLI and configuration.
- Weekday, growth and spike factors of the demo: the day's volume is any function of the link, its spike day and multiplier included, the day and the stream; the crawler share is computed in exact arithmetic rather than in floating point.
- Liveness: that a waiting request gets a slot or a family eventually runs.
- LogText.FoldToLogLine: nothing is claimed of a folded line's cut beyond its bound, because folding counts the runes of an escape separately and can cut inside one.
- Routing.NamesNeverRepeat: holds while fewer than 2^64 instances have been made, as the other run theorems of that module do; Routing.InstanceNamesCoincide is the exact condition beyond that.
- Sdk.FetchEach: starts from an empty hold and well-formed records; Sdk.NetworkFetch covers one call from any.
