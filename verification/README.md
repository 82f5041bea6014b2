# Astro Passport: a verified model of its hard core

The service turns a place and a local clock time into canonical astronomical facts. This project models
the parts of it that decide what those facts are and whether they can be trusted, and proves what the code
and its documentation promise about them. `dafny verify dfyconfig.toml` checks everything.

- **Local time** (`CivilTime`, `Resolver`, `Projection`, `Calendar`). A zone is an ascending list of
  transitions with whole-second offsets. `ToUtc` and `ToLocal` are the two lookups of the Python `zoneinfo` module with
  PEP 495 folds, `Candidates` is `_utc_candidates`, and `Resolve`, `VerifyResult` and `Project` are the
  resolver, its replay check and the response built from it.
- **Canonical bytes, written twice** (`Scaled`, `Timestamp`, `LongitudeText`, `HalfEven`, `Unicode`, `Json`,
  `Canonical`, `NodeCanonical`, `PassportContent`, `PassportBytes`,
  `LahiriContent`, with `Sorting`, `Lex` and `Digits`). The Python encoder
  works with Decimal and sorts keys by UTF-16 big-endian bytes before printing; the Node encoder works with
  BigInt and sorts by code units while printing. Both are modelled branch by branch. NFC is an arbitrary
  function from texts to texts; where it must be idempotent or leave ASCII alone the lemma says so.
- **The pair comparator** (`Leaves`, `ComparePair`). Trees are flattened to path maps and checked row by
  row. Library conversions, the model validators and the digest are functions in `Tools`; the rule list is arbitrary.
- **Capacity** (`Capacity`). Admission slots, pipeline tokens and adapter tokens as one transition system:
  requests arrive, awaits return or are cancelled or time out, worker threads start, call and finish, in any
  interleaving. Awaits and threads interleave inside the source's functions, so their steps are transitions.
- **Quota** (`Quota`). The durable table as an object with its one transaction, and arbitrary runs of calls.
- **Readers and worklists** (`Cpio`, `GeometryFile`, `Boundary`, `Closure`, `CachePublication`). The cpio
  loop, the streaming feature scanner, the lookup through the spatial index, the dependency worklist and the
  publication of downloaded content by concurrent calls. `Collections` and `Results` hold what several parts share.

Loops of the source are loops here (`UtcCandidates`, `NormalizeByLoops`, `FlattenByLoops`, `Compare`,
`ReadPayload`, `ParseGeometry`, `Lookup`, `Follow`, `Reserve`). Each is proved equal to a specification
function, or to meet its specification outright, and the main results are about those functions.

## What the proofs found

- The projection of Lahiri angles lacks the zero normalisation of the tropical one
  (`app/science/pipeline.py:134` against `:179`). A raw longitude with a minus sign can only be a negative
  zero, and it prints as `-0.000000000`, which the wire pattern refuses: `LahiriPassesIffUnsigned` gives the exact
  condition and `NegativeZeroFails` the inputs.
- The two-fold search is complete whenever the windows around transitions are apart, and then requests and
  instants correspond one to one. It is not always complete otherwise: `OverlapLosesAnInstant` is a made-up
  family of zones with overlapping windows where an instant is lost. Being apart is sufficient, not necessary.
- The adapter's busy error is unreachable behind one service and reachable as soon as two share the process
  (`BusyOnlyWithTwoServices`).
- A killed download leaves its partial file, and from then on that content can never be published without
  help; while nothing is published this is the only way to get stuck (`PublicationPossible`).
- `leaves` accepts a list of dicts as if it were a dict with the keys "0", "1", and so on, so equal flat maps
  mean equal trees only after reading such lists that way (`SameFlatIffSameShape`).
- The feature scanner tolerates white space almost everywhere but not between the last `]` and `}`
  (`AcceptsExactlyTheGrammar`).

## Model

| member | source | states |
|---|---|---|
| CivilTime.BisectSplits | app/science/civil/tzdb.py:81-82 | the binary search behind both zone lookups splits the transitions at the requested second |
| CivilTime.UtcCandidates | app/science/civil/tzdb.py:77-86 | the two-fold loop collects exactly the distinct instants that replay to the local time |
| CivilTime.CandidatesReplay | app/science/civil/tzdb.py:82-85 | for any zone at all, each candidate replays to the local time and two candidates differ |
| CivilTime.OffsetUnderADay | app/science/civil/tzdb.py:166-173 | local time minus UTC is whole seconds and under a day in size |
| CivilTime.ClockInForce | app/science/civil/tzdb.py:82 | the clock shown at an instant is UTC plus the offset of the latest transition that has happened |
| CivilTime.PreimageIsTried | app/science/civil/tzdb.py:80-81 | with separated windows, every instant that shows a local time is the one some fold tries |
| CivilTime.CandidatesAreAllPreimages | app/science/civil/tzdb.py:77-86 | with separated windows, an instant shows the local time if and only if it is a candidate |
| CivilTime.GapFoldUnique | app/science/civil/tzdb.py:77-86 | no candidate if and only if in a gap, two if and only if in a fold with fold 0 the earlier, otherwise exactly fold 0 |
| CivilTime.ChoiceMeansGapOrFold | app/science/civil/tzdb.py:156-165 | the resolver's three failures and its success are exactly gap, unnamed fold, unusable fold and the rest |
| CivilTime.RequestsMatchInstants | app/science/civil/tzdb.py:156-165 | a local time with a fold choice yields an instant if and only if that choice names it among all instants showing that time |
| CivilTime.EveryInstantIsRequested | app/science/civil/tzdb.py:156-165 | every instant is the answer to a request with its own local time |
| CivilTime.OneRequestPerInstant | app/science/civil/tzdb.py:156-165 | two accepted requests with the same instant are the same request, so the correspondence is one to one |
| CivilTime.OverlapLosesAnInstant | app/science/civil/tzdb.py:80-85 | two quick steps back overlap, and then one of three instants showing a local time is never a candidate |
| Resolver.ResolvedIsCoherent | app/science/civil/contracts.py:100-114 | whatever resolves satisfies the record's validator and keeps its inputs |
| Resolver.VerifiedIffResolved | app/science/civil/tzdb.py:97-127 | a record passes the replay check, unchanged, if and only if its own inputs resolve to it |
| Resolver.ResolveThenVerify | app/science/civil/tzdb.py:97-190 | every successful resolution passes the replay check unchanged, replays to the requested clock, and with a fold given is that fold's instant |
| Resolver.FailuresMeanGapAndFold | app/science/civil/tzdb.py:156-165 | nonexistent, ambiguous and invalid fold are reported exactly in gaps, folds without choice and choices without fold, and otherwise the instant is the one the fold names |
| Resolver.ResolvesToTheNamed | app/science/civil/tzdb.py:129-166 | with separated windows, a request resolves to an instant if and only if its fold names it among all instants that show the clock |
| Resolver.ResolvesByFold | app/science/civil/tzdb.py:150-165 | for any zone, each answer by whether the two folds' instants show the clock; a fold gives its own instant |
| Resolver.RefusedBefore | app/science/civil/tzdb.py:136-155 | the refusals before any clock arithmetic, each exactly when its check fails and the earlier ones pass |
| Resolver.ReplayFailures | app/science/civil/tzdb.py:116-127 | a failed replay is a bad artifact if and only if the zone is missing, otherwise bad input |
| Resolver.LimitationsMean | app/science/civil/contracts.py:56-62 | the second limitation is there exactly before 1970 and after 2026-07-08 |
| Resolver.UtcInEphemerisRange | app/science/ephemeris/contracts.py:137-146 | local years 1900 to 2100 always land in the ephemeris range |
| Projection.ProjectedIsCoherent | app/contracts.py:240-261 | the projected response always satisfies the response validator: sum, fold, clock text, limitations |
| Projection.WireUtcIsCanonical | app/science/pipeline.py:123 | the wire UTC is already canonical, and two wire texts are equal if and only if the instants are, and ordered as the instants are |
| Projection.CoherentUtcIsCanonical | app/contracts.py:240-261 | every response that passes its validator carries a time that the content normaliser accepts unchanged |
| Projection.ResolvedRequestsProject | app/science/pipeline.py:85-145 | from request to response: verified, in range and valid on the wire, for every zone and fold |
| Projection.ResponseNamesItsInstant | app/science/pipeline.py:85-123 | with separated windows, the UTC of the response is the instant that the request's fold names |
| Projection.AstroLimitationsMean | app/science/ephemeris/contracts.py:137-146 | the second limitation is the proxy exactly before 1972 and the frozen leap table exactly from 2017 on |
| Calendar.DaysBeforeYearClosed | app/canonical.py:37-49 | the recursive Gregorian day count equals the closed form with 4, 100 and 400 years |
| Calendar.OrdinalOrder | app/canonical.py:37-49 | day numbers order valid dates and identify them |
| Calendar.FieldsRoundTrip | app/canonical.py:37-49 | counts and date-time fields determine each other, in both directions |
| Timestamp.SameTimestamp | conformance/acep1.mjs:25-32 | the Python and Node normalisers accept the same texts and return the same text |
| Timestamp.FieldsComeBackIffValid | conformance/acep1.mjs:29-30 | reading a normalised date's fields back accepts exactly the valid Gregorian date-times after year 99 |
| Timestamp.WholeSecondRange | conformance/acep1.mjs:30 | the whole-second range test equals the microsecond one |
| Timestamp.BoundsAreInstants | app/canonical.py:44-48 | the two numeric bounds are the documented first and last instants |
| Timestamp.PrintParses | app/canonical.py:37-49 | printing a stamp and matching it again recovers every field |
| Timestamp.TextMeans | app/canonical.py:38-43 | each digit group means its field, and a short fraction is filled up with zeros at its end |
| Timestamp.ShapedIsText | app/canonical.py:38-41 | every text of the pattern is spelled by such groups |
| Timestamp.FractionIsMicros | conformance/acep1.mjs:31 | padding a fraction multiplies its value by ten for each missing digit |
| Timestamp.AcceptedTexts | app/canonical.py:43-48 | a text is accepted if and only if its groups are a valid date and clock between the two midnights |
| Timestamp.TimestampIdempotent | app/canonical.py:37-49 | the output is a fixed point and denotes the same instant as the input |
| Timestamp.TimestampCovers | app/canonical.py:37-49 | every supported instant is denoted by an accepted text, which is its own output |
| Timestamp.TextOrderIsTimeOrder | app/canonical.py:37-49 | lexicographic order of outputs is chronological order |
| HalfEven.NearestUnique | app/canonical.py:29 | a rational has only one half-even rounding |
| HalfEven.SameRounding | conformance/acep1.mjs:16-18 | rounding by dropped digits and by remainders is the same |
| Scaled.ProductIsExact | app/canonical.py:28-29 | the 40-digit context never rounds the product |
| Scaled.ContextRoundsOnce | app/canonical.py:28 | a context of any precision drops all excess digits of any decimal in one half-even rounding |
| Scaled.SameScaled | conformance/acep1.mjs:7-23 | both versions accept the same texts and return the same integer |
| Scaled.ScaledMeans | app/canonical.py:17-34 | an integer is returned if and only if the text spells a number in range whose half-even rounding in units of 10^-7 or 10^-9, wrapped, it is |
| Scaled.MatchIsSpelling | app/canonical.py:18 | the pattern accepts exactly sign, one to three digits and perhaps a point with up to 18 digits, and splits them there |
| Scaled.ScaledRange | app/canonical.py:30-34 | results lie in the documented ranges after both wraps |
| Scaled.LatitudeOdd | app/canonical.py:17-34 | changing the text's sign changes the result's sign, rejections included |
| Scaled.OddBeforeWrap | app/canonical.py:28-34 | a coordinate and its negation are both rejected or round to opposite integers before the wrap |
| Scaled.LongitudeOdd | app/canonical.py:17-34 | the same for longitude texts, where the two ends of the range are one result |
| LongitudeText.NoDoubleRounding | app/science/pipeline.py:134 | quantise, print, match and scale together are one half-even rounding modulo the circle, and the printed text passes the pattern and the decimal comparison of the wire model, zeros of both signs included |
| LongitudeText.TextRoundTrip | app/contracts.py:160-169 | every count below the circle prints to text that passes the pattern, equals the decimal of the count and reads back as itself |
| LongitudeText.PatternRoundTrip | app/contracts.py:160-169 | every text the pattern accepts is the text of its own value |
| LongitudeText.QuantizedLongitude | app/science/ephemeris/contracts.py:52-57 | an accepted longitude quantises to its half-even rounding modulo the circle without overflow |
| LongitudeText.LahiriPassesIffUnsigned | app/science/pipeline.py:176-180 | the Lahiri text passes the pattern if and only if the raw value has no minus sign |
| LongitudeText.NegativeZeroFails | app/science/pipeline.py:176-180 | every negative zero is accepted and then fails the pattern there, while the tropical text is plain zero |
| Unicode.ByteOrderIsUnitOrder | app/canonical.py:80 | order on UTF-16 big-endian bytes is order on UTF-16 code units |
| Unicode.Utf8Injective | app/canonical.py:83-85 | no two texts have the same UTF-8 bytes |
| Unicode.ReadsExactly | conformance/acep1.mjs:37-38 | code units read as a text if and only if they are the units of that text |
| Unicode.WellFormedIsText | conformance/acep1.mjs:37 | the test for lone surrogates accepts exactly the units of texts |
| Unicode.Utf8RoundTrip | app/canonical.py:83-85 | decoding the UTF-8 bytes of any text gives that text |
| Unicode.DecodesExactly | app/canonical.py:83-85 | a strict UTF-8 decoder accepts exactly the bytes the encoder makes of some text, and returns that text |
| Json.ParseEmitted | app/canonical.py:83-85 | a parser recovers a printed value of any nesting depth and leaves what followed it |
| Json.EmitInjective | app/canonical.py:83-85 | different normal values have different texts |
| Json.EscapeMeans | app/canonical.py:83-85 | a character is printed as itself unless it must be escaped, in two characters where there are such, else in six, and always as one the parser reads back |
| Canonical.NormalizeByLoops | app/canonical.py:55-81 | the recursive normaliser with its loops equals its specification, errors included |
| Canonical.SafeMeans | app/canonical.py:61-66 | a number is accepted if and only if it is an integer, however spelled, of size below 2^53 |
| Canonical.MembersPointwise | app/canonical.py:71-80 | an object is accepted exactly if its members are and no two keys collide after NFC |
| Canonical.SameBytesIffSameNormal | app/canonical.py:52-85 | two accepted trees have the same bytes if and only if their normalised trees are equal |
| Canonical.ParsedBack | app/lahiri.py:107 | decoding and parsing the bytes recovers the normalised tree |
| Canonical.NormalizeIsNormal | app/canonical.py:55-81 | with an idempotent NFC the result is normal at every depth |
| Canonical.NormalIsFixed | app/canonical.py:55-81 | normalising a normal tree changes nothing |
| Canonical.ReencodedBytes | app/lahiri.py:107-117 | encoding what the bytes parse to gives the same bytes |
| Canonical.OrderNeverMatters | app/canonical.py:71-80 | insertion order of members, at any depth, never changes the outcome |
| NodeCanonical.NodeMembersByLoop | conformance/acep1.mjs:43-48 | the Node loop over an object's keys equals its specification |
| NodeCanonical.NodeTextMeans | conformance/acep1.mjs:36-39 | a text is accepted if and only if it is some text's units, and the result is the units of its NFC |
| NodeCanonical.SortCommutes | conformance/acep1.mjs:53 | sorting by bytes before printing is sorting prints by code units |
| NodeCanonical.SameEncoding | conformance/acep1.mjs:34-57 | both encoders return the same bytes or both reject, on every tree |
| NodeCanonical.SameEncodingInAnyOrder | conformance/acep1.mjs:46-53 | the same holds whatever order an engine lists an object's keys in |
| PassportContent.CoordinateIsNearest | app/canonical.py:96-101 | a coordinate whose product fits the context is rounded once, to the nearest unit with ties to even, and only then may a longitude wrap |
| PassportContent.SpellingsFit | app/canonical.py:99-100 | the product fits the 40-digit context for every spelling of up to 33 digits |
| PassportContent.CoordinateFits | app/canonical.py:96-101 | every coordinate in range with up to 33 digits becomes an integer in range, the count of its ten-millionths of a degree, longitudes below the upper end |
| PassportContent.CoordinateMeans | app/canonical.py:96-101 | the integer is returned if and only if it is the nearest count of ten-millionths, ties to even, with 180 degrees east as west |
| PassportContent.ObjectsAlike | app/canonical.py:71-80 | objects with the same keys normalise alike if and only if their values do, key by key |
| PassportContent.SameBytesIffSameFacts | app/canonical.py:88-116 | two responses have the same content bytes if and only if profile, policies, instant, rounded place and longitudes agree |
| PassportBytes.EncodingSucceeds | app/canonical.py:88-116 | content of a response that passes its validator is always encoded: no rejection is left |
| PassportBytes.ConsumerReads | app/canonical.py:103-116 | decoding and parsing the bytes shows every fact under its own key: names, policies, canonical time, rounded place, frame and each body with its longitude |
| PassportBytes.PassportIdentifiesFacts | app/canonical.py:88-116 | responses that pass their validator are encoded, have the same bytes if and only if they say the same, and a reader finds what they say under the documented names and units |
| PassportBytes.CoordinatesByName | app/canonical.py:108-109 | a reader finds the counts of ten-millionths of a degree of the place under `latitude_e7` and `longitude_e7` |
| PassportBytes.FactsByName | app/canonical.py:88-116 | a reader finds every fact under its documented name and nothing else |
| PassportContent.SameUtcIsSameInstant | app/canonical.py:107 | the times agree there if and only if they are the same microsecond |
| LahiriContent.PutMembers | app/lahiri.py:108-109 | assigning to a key changes the value under that key and no other member |
| LahiriContent.ParsedContent | app/lahiri.py:107 | the parsed tropical content is, as a dictionary, the one that was encoded |
| LahiriContent.EditIsDirect | app/lahiri.py:105-117 | parsing, editing and encoding again gives the bytes of the edited content written directly |
| LahiriContent.LahiriIdentifiesFacts | app/lahiri.py:105-117 | validated Lahiri responses are encoded, have the same bytes if and only if they say the same but for the tropical profile, and a reader finds what they say under the documented names and units |
| Leaves.FlattenByLoops | conformance/comparator.py:63-78 | the recursive flattener with its loops equals its specification, refusals included |
| Leaves.TailInjective | conformance/comparator.py:65-70 | slash-free steps can be read back from a path |
| Leaves.FlattenIsWalk | conformance/comparator.py:63-78 | the flat map is exactly the tree's walk: nothing lost, overwritten or invented |
| Leaves.NothingOverwritten | conformance/comparator.py:68-77 | the flat map has as many entries as the tree has leaves |
| Leaves.FlatIsLookup | conformance/comparator.py:63-78 | looking a path up in the tree gives its flat value, and only leaves are in the map |
| Leaves.SameFlatIffSameShape | conformance/comparator.py:63-78 | two accepted trees flatten alike if and only if they are equal after reading lists of dicts as dicts keyed by index |
| ComparePair.EqualSymmetric | conformance/comparator.py:81-90 | equality of leaves is symmetric where dict equality is |
| ComparePair.EqualTransitive | conformance/comparator.py:81-90 | equality of leaves is transitive where dict equality is |
| ComparePair.EqualIsIdentity | conformance/comparator.py:81-90 | without dicts, equal leaves are identical, floats bit for bit |
| ComparePair.NonFiniteMatchesNothing | conformance/comparator.py:84-85 | a leaf that is not finite equals nothing, itself included |
| ComparePair.Compare | conformance/comparator.py:134-259 | the comparison returns if and only if both new sides, both records and every row hold as the classes say, and counts every class twice |
| ComparePair.FlattenNew | conformance/comparator.py:161-172 | the first loop accepts exactly the covered and identified new sides |
| ComparePair.CompareRecord | conformance/comparator.py:174-186 | one record passes exactly if it is covered, retained, mapped to its request and all its rows pass |
| ComparePair.CompareRow | conformance/comparator.py:183-253 | one row passes if and only if its leaf meets the conditions of its class and every live target of its participant holds the value of its class |
| ComparePair.PassesIsHolds | conformance/comparator.py:186-253 | for every class, the value each target must hold and the condition on the old leaf, both ways |
| ComparePair.AcceptsIsHolds | conformance/comparator.py:134-259 | acceptance is coverage on both sides, the revision, the retained manifest, the mapped requests, every row and no new leaf out of nowhere |
| ComparePair.NewFlatMeans | conformance/comparator.py:164-166 | the new leaves are those of the request, the response and its provenance under their names |
| ComparePair.CheckClassified | conformance/comparator.py:255-258 | the last loop accepts exactly the lists without unclassified new values |
| ComparePair.CountsSumToTwice | conformance/comparator.py:173-185 | the returned counts sum to twice the number of old rows |
| ComparePair.EveryOldLeafCheckedOnce | conformance/comparator.py:174-184 | every old leaf of both records is the subject of exactly one old row, and that row passed |
| ComparePair.ManifestLeavesAreNotCollapsed | conformance/comparator.py:186 | a manifest leaf whose third step names participant i meets its class against response i from either record |
| ComparePair.AcceptedResponsesAgree | conformance/comparator.py:252-253 | two accepted pairs of responses for the same records and revision agree on every targeted leaf, bit for bit where the leaf holds no dict |
| ComparePair.AcceptedIdentities | conformance/comparator.py:191-205 | with the pinned values, an accepted identity under each of the three path endings held that ending's old value and its target holds that ending's new one; no other ending passes |
| Capacity.TokensConserved | app/api.py:56-58 | in every reachable state each pool and its holders make its capacity, for all three layers |
| Capacity.FreedExactlyOnce | app/science/pipeline.py:211-232 | a request takes its slot and its pipeline token at most once and has freed each exactly as often once it no longer holds it; adapter tokens, at most two in turn, are freed as often as taken outside a call |
| Capacity.QuotaBeforeScience | app/api.py:72-124 | whatever is calculated was admitted, authenticated, granted and had a valid body, by events in this order; no token is taken before |
| Capacity.RefusedStaysOut | app/api.py:76-122 | a negative answer to any of these ends the request for good, without a calculation |
| Capacity.AdmittedIfRoom | app/api.py:72-75 | a request is let in if and only if it is well formed and fewer than four are inside |
| Capacity.CalculatedIfRoom | app/science/pipeline.py:211-232 | a body leads to a calculation if and only if it is valid, is submitted and fewer than two are alive |
| Capacity.EntersIfRoom | app/science/ephemeris/adapter.py:68-69 | a calculation enters the adapter if and only if fewer than two are inside, and makes no further call if not |
| Capacity.CallsAsAsked | app/science/ephemeris/adapter.py:60-109 | a calculation tries at most the one or two native calls its request needs, and none after a failed one |
| Capacity.AnsweredAfterEnd | app/science/pipeline.py:215-232 | a waiter is answered only after the worker has ended |
| Capacity.AbandonedJobKeepsItsToken | app/science/pipeline.py:215-232 | after its waiter was cancelled, timed out or answered, a running job's token is freed by its own end and by nothing else |
| Capacity.TwoJobsMakeBusy | app/science/pipeline.py:211-213 | two live jobs refuse a third, whether or not anyone waits for them |
| Capacity.StepIsLocal | app/science/ephemeris/adapter.py:68-109 | an event changes nothing of any other request |
| Capacity.QuiescenceRestoresPools | app/api.py:147-148 | when nobody is inside and nothing runs all pools are full |
| Capacity.PoolsCanAlwaysRefill | app/science/pipeline.py:216-232 | from every reachable state some run leads back to full pools, so no token is ever lost |
| Capacity.RoomForOneMore | app/science/ephemeris/adapter.py:68-69 | behind one service a job about to enter the adapter always finds a token |
| Capacity.BusyOnlyWithTwoServices | app/science/ephemeris/adapter.py:28-69 | the adapter's busy error is reachable if and only if two services share the process |
| Quota.MinuteMonotone | app/security.py:134 | truncated seconds floor-divided by 60 keep the order of clocks, also before 1970 |
| Quota.MinuteMeans | app/security.py:134 | which microseconds fall into which minute, truncation towards zero included |
| Quota.QuotaTable.constructor | app/security.py:113-121 | the table starts empty |
| Quota.QuotaTable.Reserve | app/security.py:124-165 | one transaction: the answer and the whole new table, which only a grant changes |
| Quota.Serve | app/security.py:124-165 | a run of calls against the object is a run of the specification |
| Quota.UsedIsGrants | app/security.py:142-162 | the stored count is the number of grants in the stored minute, and no later minute has any |
| Quota.GrantsWithinLimit | app/security.py:158-163 | grants of a key in a minute never exceed the largest limit presented in it |
| Quota.GrantsInOrder | app/security.py:149-157 | a minute that a key has left is never granted in again |
| Quota.RowsAreFew | app/security.py:145-147 | there are never more than 128 rows |
| Quota.RowsAreGrantedKeys | app/security.py:142-163 | the table holds a row for exactly the keys that were ever granted |
| Quota.ExactlyTheLimit | app/security.py:134-163 | with one limit, a clock that never goes back and room, grants in a minute are the smaller of attempts and limit |
| Quota.OutcomeExactly | app/security.py:124-165 | every call of a run fails, is refused or is granted exactly by reachability, earlier grants, the number of keys and the limit |
| Boundary.Lookup | app/science/boundaries/tbb.py:159-192 | the lookup through the index equals a scan of the whole dataset, for any order of hits |
| Boundary.SortSet | app/science/boundaries/tbb.py:181 | sorting a set gives its one ascending list |
| Boundary.SeenIsCovering | app/science/boundaries/tbb.py:174-180 | what the loop collects is what the whole dataset holds |
| Boundary.EveryOutcomeCoherent | app/science/boundaries/contracts.py:77-98 | every outcome satisfies the validator of its record |
| Boundary.ResolvedExactly | app/science/boundaries/tbb.py:186-192 | a zone is returned if and only if it alone holds the point, strictly inside every piece |
| Boundary.UnresolvedExactly | app/science/boundaries/tbb.py:168-192 | seam or pole, edge, several interiors and no match are returned exactly in these cases, in this order |
| Boundary.CandidatesCover | app/science/boundaries/tbb.py:181-189 | the candidates are exactly the names whose geometries cover the point |
| GeometryFile.ParseGeometry | app/science/boundaries/tbb.py:107-156 | the parser with its loop equals its specification, names and geometries index-aligned in document order |
| GeometryFile.ParseFeatures | app/science/boundaries/tbb.py:119-153 | the loop accepts exactly scannable features with distinct known names within the count |
| GeometryFile.MatchesExactly | app/science/boundaries/tbb.py:37 | the prefix matches exactly where its tokens are spelled out |
| GeometryFile.CloseIs | app/science/boundaries/tbb.py:122-125 | the closing test means a bracket, a brace right after it and only white space |
| GeometryFile.ScansExactly | app/science/boundaries/tbb.py:119-153 | the loop accepts exactly the texts of the grammar: no missing, doubled or trailing comma |
| GeometryFile.AcceptsExactlyTheGrammar | app/science/boundaries/tbb.py:107-156 | a file is accepted if and only if it is a feature collection whose names are the catalogue |
| GeometryFile.AcceptsExactlyTheCatalogue | app/science/boundaries/tbb.py:36-156 | the same at the prefix and feature count of the code |
| GeometryFile.EveryNameOnce | app/science/boundaries/tbb.py:136-155 | an accepted file lists every catalogue name exactly once and nothing else |
| GeometryFile.CountCheckIsRedundant | app/science/boundaries/tbb.py:139-140 | distinct known names never outnumber the catalogue, so the count check decides nothing |
| Cpio.ReadMember | compliance/native.py:53-70 | one turn of the loop equals its specification, with every refusal |
| Cpio.ReadPayload | compliance/native.py:51-71 | the loop equals its specification, duplicate names and a missing trailer refused |
| Cpio.CursorAdvances | compliance/native.py:57-70 | the cursor stays 4-aligned and strictly increases, and every slice lies inside the payload |
| Cpio.AcceptsExactlyTheFormat | compliance/native.py:51-71 | the reader accepts exactly the archives of distinct names, whatever the free header fields and padding hold, and returns their members |
| Cpio.WrittenReadsBack | compliance/native.py:51-71 | files of distinct names written with 4-byte padding and a trailer read back as themselves |
| Cpio.NewAsciiReadsBack | compliance/native.py:51-71 | the same at the magic numbers, hexadecimal fields and trailer name of the code |
| Closure.Follow | compliance/validate.py:74-84 | the worklist fails if and only if a reached name has no package, otherwise finds exactly the reached names, each entered once |
| Closure.AddAll | compliance/validate.py:81-84 | the inner loop adds exactly the new dependencies and keeps the list without repeats |
| CachePublication.AtMostOneOwner | compliance/bundle.py:63-66 | at most one call owns the partial file |
| CachePublication.OnlyItsOwnerUnlinks | compliance/bundle.py:81-83 | the partial name leaves a file only when the call that created it removes it |
| CachePublication.PublishedStays | compliance/bundle.py:76-80 | the published name is never overwritten and its content never changes |
| CachePublication.ReturnedMeansVerified | compliance/bundle.py:54-84 | a call that returned leaves verified content at the published name |
| CachePublication.PublishedMeansVerified | compliance/bundle.py:75-80 | whatever stands at the published name was verified against the digest and size |
| CachePublication.OfflineNeverOpens | compliance/bundle.py:57-61 | an offline call creates no file and can only return or fail |
| CachePublication.FinderReturns | compliance/bundle.py:57-59 | where verified content is published, a call that has opened nothing can only return |
| CachePublication.PublisherReturns | compliance/bundle.py:75-84 | the call that publishes links its own file and can only return |
| CachePublication.FailureStays | compliance/bundle.py:75-83 | a call beaten to the name succeeds if and only if what stands there verifies |
| CachePublication.WrongDownloadFails | compliance/bundle.py:67-83 | a download that broke off, was too large or did not verify can only be removed and fail |
| CachePublication.StaleForever | compliance/bundle.py:63-66 | a partial file left by a killed call stays, and nothing is published any more |
| CachePublication.PublicationPossible | compliance/bundle.py:54-84 | while nothing is published, publication is possible if and only if no killed call left its partial file |

## Left out

- The RPM header index and the ELF section table (`compliance/native.py:18-43` and `:74-100`): bounds checks over fixed-width fields that would only add easy members.
- The API's checks of headers, body size and JSON: they only decide whether a handler goes on or ends, and appear in `Capacity` as outcomes of events.
- `authenticate`, the hash pins, file modes, SQLite itself, sockets, redirects and every other input or output: I/O or literal comparison.
- Swiss Ephemeris, its worker process and GEOS: foreign code. Geometries are two point predicates, the index is any answer that misses no covering geometry.
- The start-up checks of a service also enter the adapter; `Capacity` models services that have started.
- `Capacity` treats the thread pool as always willing to start a queued job eventually; shutdown of the event loop is not part of it.
- CivilTime: the rule string after a zone's last transition is modelled as further transitions; a zone's windows being apart is a hypothesis, as PEP 495 needs it.
- Resolver: the zones are assumed valid (ascending, offsets under a day), which the pinned archive and the library that reads it guarantee.
- Canonical.NormalizeByLoops: dictionaries whose keys are not texts are not representable; all other rejected values are. Texts are code units, so a Python text that holds a surrogate pair as two code points is read as the one character they spell, where `encode("utf-8")` would refuse it.
- Quota.MinuteMonotone: rounding inside `timestamp()` is not modelled; it could only show for clocks centuries ahead, where a double no longer separates microseconds.
- Cpio.ReadMember: size fields are read as hexadecimal digits only, not in the other spellings that `int(x, 16)` allows; decoding a name is a parameter.
- GeometryFile.ParseGeometry: the JSON decoder, the feature's shape checks and ring validation are one parameter, assumed to decode an object by its own text alone.
- ComparePair.Compare: which category a failed comparison raises is not modelled, only that it raises; parsing of clocks, instants and longitudes are parameters.
- CachePublication.PublishedMeansVerified: reading a file is one step; that is sound because a file that is being verified is no longer written, which the invariant includes.
- Provenance records, catalogue texts and JSON data files: literal equality without unbounded content.
