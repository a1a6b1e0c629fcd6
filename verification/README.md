# Verification of the CCT review service

The service shows the coda-calibrated magnitudes that a Coda Calibration Tool (CCT) database holds for earthquakes, and
lets an analyst accept or reject them. Accepting copies a magnitude into AQMS, a second database. This project models
five parts of the service and proves what they promise:

| part | files | main results |
|---|---|---|
| the table-driven base64 codec, and the Authorization header read with it | `Rfc4648`, `Base64Tables`, `Base64`, `Authorization` | the tables, or-ed words and byte extraction of either byte order compute sections 3.5 and 4 of RFC 4648 for every input; the pair of entry points is the identity; re-encoding a decoded text clears its unused bits, so it is stable exactly for canonical texts; a header of RFC 7617, section 2, comes back as the pair it was made from |
| the azimuthal gap and the closest distance | `Geometry` | the sorted, wrapped running maximum is the size of the largest station-free arc of the circle; it does not depend on the order of the stations or the direction of north, further stations never widen it, it is a full turn exactly when all directions coincide |
| unpacking and regrouping the CCT document | `CctDocument`, `FittedSpectra`, `StationMeasurements`, `MagnitudeDetails`, `KeyOrder` | the triples of stream, frequency and value shown are as a multiset those recorded under an introduced stream; each group is sorted and has the residuals of the first near fit point; what is shown never exceeds what an accept counts |
| the polling cache with its watermark and hash | `CacheModel`, `CacheRuns`, `CctService` | over every run of writes, deletions, polls and reviews, a stale or missing row is stamped after the watermark, so a poll repairs the cache; the hash is that of the content; the order of the rows of a poll is irrelevant |
| accept and reject across CCT and AQMS | `Identifiers`, `AqmsModel`, `AqmsRequests`, `AqmsClient`, `Reviews`, `Callback` | over every run of requests with faults, no origin holds two coda magnitudes and every preferred magnitude is live, exactly as long as no silently failed read does harm; what a reply of success guarantees, from any state earlier failures left; a faultless retry repairs |

Where the source changes state step by step, the model does too: the codec writes into arrays, the event cache, the
polling service, the magnitude record, the AQMS client and the request handler are classes. Each of their methods is
proved against a function or predicate on values, and the theorems above are lemmas about those. `dafny verify
dfyconfig.toml` checks everything.

## What is assumed

Geodesics (`Solver`), powers of ten, JSON parsing and printing, and `std::hash` are function parameters. Doubles are
reals; times are integer microseconds. A connection that breaks, a query or statement that fails, the row chosen by
`LIMIT 1`, the identifier handed out by a sequence and the preferred magnitude elected by a stored procedure are inputs
(`Exchange`, `Statement`, `Fate`), so every theorem is for all of them. The stored procedures of AQMS are contracts:
`epref.insertNetMag` adds the row under a new, non-negative identifier; `magpref.setPrefMagOfEvent` and
`magpref.setPrefMagOfEventByPrefor` choose none or a magnitude of the event; `magpref.setPrefMag` sets the given one;
`epref.bump_version` adds one. They belong to the transaction around them, although some calls pass a commit flag of 1
(src/aqmsPostgresClient.cpp:378-394). A procedure that breaks its contract is a statement that fails. Each poll and each
request is one step: two polls at once, which the source allows since the watermark is outside the lock, are not modelled.

## What the code does that its documentation and names do not say

- A failed existence query reads as absence and a failed identifier query as identifier 0. On the event of the request,
  `AcceptExactly` and `RejectExactly` say exactly when that spoils the result. It can also hit another event, whose
  magnitude 0 is updated or deleted (`LyingAcceptHitsOtherEvent`, `LyingRejectHitsOtherEvent`); `AcceptInvExactly` and
  `RejectInvExactly` say exactly when AQMS stays consistent, and `RunInvExactly` says it for runs.
- The statement on the event table succeeds when no row has the identifier. Since the cache keeps deleted rows, an accept
  or reject can reply success and mark nothing (`DeletedRowGoesUnnoticed`); `AcceptDelivers` and `RejectDelivers` give the
  exact condition.
- The range check of a magnitude precedes its rounding, so 9.996 is stored as 10 (`StoredRange`).
- A reject replies "success" whatever happened; only the missing reason tells (`ReplyTo`, `RejectDelivers`).
- A number beyond 64 bits is not refused as an event identifier: its first two digits, or a sign and one digit, are
  dropped (`LongNumberLosesTwoDigits`, `SignedLongNumberLosesSignAndDigit`, `LongNumberExample`). The request handler
  never passes one on, because it first looks the event up in the cache, whose keys all convert exactly
  (`CachedKeyConverts`); other callers of the AQMS client could.
- When the geodesic solver fails for the first station, the greatest double is stored as the closest distance
  (`StoredDistance`).
- A write whose stamp is not above the watermark is never polled (`PollShows`, an equivalence for arbitrary stamps), and
  a deleted row stays in the cache (`CacheNeverForgets`).
- Residuals are taken from the points of all FIT spectra, though only the first FIT spectrum is shown (`SelectSpectra`).
- A user name with a colon is cut there, and the rest becomes part of the password (`ColonInUserIsLost`), as RFC 7617 warns.

## Model

| member | source | states |
|---|---|---|
| Rfc4648.DecodeOfEncode | src/base64.hpp:494-553 | in the bit-string definition of RFC 4648, encoding any octets gives a well-formed text that decodes to them |
| Rfc4648.EncodeOfDecode | src/base64.hpp:622-674 | re-encoding the decoding of any accepted text gives the text with the unused low bits of its last sextet cleared |
| Rfc4648.CanonicalIffStable | src/base64.hpp:622-674 | re-encoding reproduces an accepted text if and only if it is canonical in the sense of section 3.5 |
| Base64Tables.DecodeTables | src/base64.hpp:74-447 | each of the eight literal decoding tables holds, for every byte, the sextet value shifted to its place in the word of its byte order, and the bad entry outside the alphabet |
| Base64Tables.EncodeTable0Entries | src/base64.hpp:451-469 | the first encoding table gives the character of the high six bits of every byte |
| Base64Tables.EncodeTable1Entries | src/base64.hpp:471-489 | the second encoding table gives the character of the low six bits of every byte |
| Base64.OrBits | src/base64.hpp:604-604 | the recursive or on numbers is the or of their bits, at every width that holds them |
| Base64.OrFields | src/base64.hpp:604-604 | or-ing words works field by field, for fields of any width |
| Base64.WordOctets | src/base64.hpp:614-619 | in both byte orders the three bytes read from the word of four sextets are the three octets those sextets spell, and the word is below the bad entry |
| Base64.WordOfChars | src/base64.hpp:599-609 | the or of two to four table entries reaches the bad entry exactly when some character is outside the alphabet, and otherwise is the word of the sextets |
| Base64.QuantumBits | src/base64.hpp:593-620 | four sextets and the three octets made of them are the same bit string |
| Base64.EncodeQuantum | src/base64.hpp:512-522 | one turn of the loop overwrites exactly four characters of the buffer, with those of the sextets of three octets |
| Base64.EncodeFinal | src/base64.hpp:524-550 | the tail overwrites none, two or three characters with those of the zero-filled rest and leaves the pads |
| Base64.EncodeInto | src/base64.hpp:494-553 | the pre-filled buffer of the exact size ends up as the RFC encoding of the input, every write in bounds |
| Base64.ToBase64 | src/base64.hpp:560-562 | the text is the RFC encoding, for every byte string |
| Base64.WellFormedByCount | src/base64.hpp:580-593 | counting '=' anywhere in the last four characters decides well-formedness: at most two, and alphabet characters before that many last ones |
| Base64.DecodeQuantum | src/base64.hpp:593-674 | a quantum of two to four characters is refused exactly when one is bad, and otherwise extends the buffer by its whole octets |
| Base64.DecodeInto | src/base64.hpp:565-677 | the decoder returns exactly for well-formed texts, in either byte order, with the RFC decoding, and names the length and the pad-count error exactly |
| Base64.FromBase64 | src/base64.hpp:690-692 | the entry point accepts exactly the well-formed texts and returns their RFC decoding |
| Base64.EncodeThenDecode | src/base64.hpp:560-692 | running both entry points gives back every byte string, in either byte order |
| Authorization.SplitInterleaves | src/callback.cpp:428-431 | the fields of a header contain no blank, tab or newline, and with single ones of these between them give the header back |
| Authorization.SplitCredentials | src/callback.cpp:282-293 | a decoded value splits at its first colon into user and password, and is a bad request exactly when it has none |
| Authorization.ParseAuthorization | src/callback.cpp:425-452 | a header is read as credentials exactly when it is the scheme Basic and base64 of user, colon and password, with exactly that pair; the other outcomes each exactly when they apply |
| Authorization.UniqueSplit | src/callback.cpp:282-293 | no value splits into two different pairs whose user has no colon |
| Authorization.HeaderRoundTrip | src/callback.cpp:428-440 | the header made for a user name without colon and any password reads back as that pair and no other |
| Authorization.ColonInUserIsLost | src/callback.cpp:282-293 | for a user name with a colon, the header is read as what precedes the first colon with the rest of the name moved to the password, and as nothing else |
| Authorization.HeaderRoundTripIff | src/callback.cpp:282-293 | the header reads back as its pair if and only if the user name has no colon |
| Identifiers.StolOfToString | src/cctPostgresService.cpp:80-81 | the decimal text of every 64-bit integer is read back as that integer |
| Identifiers.KeysDiffer | src/cctPostgresService.cpp:80-81 | different row identifiers have different cache keys |
| Identifiers.TextShape | src/cctPostgresService.cpp:80-81 | the text of an identifier has no plus sign and no leading zero, and a minus sign exactly when negative |
| Identifiers.TrailingTextIgnored | src/aqmsPostgresClient.cpp:43-78 | whatever follows the digits, from the first character that is none, is ignored |
| Identifiers.KeyConversion | src/aqmsPostgresClient.cpp:43-78 | a cache key converts to the identifier it was made from, and is refused exactly for negative ones |
| Identifiers.NetworkCodeIgnored | src/aqmsPostgresClient.cpp:58-64 | any two letters in front of the decimal text change nothing |
| Identifiers.LongNumberLosesTwoDigits | src/aqmsPostgresClient.cpp:54-65 | digits whose value exceeds 64 bits convert to what follows their first two |
| Identifiers.SignedLongNumberLosesSignAndDigit | src/aqmsPostgresClient.cpp:54-65 | behind a sign, such digits lose the sign and one digit, so a large negative text may convert |
| Identifiers.ConversionIsExactIffItFits | src/aqmsPostgresClient.cpp:43-78 | a decimal text converts to its own value if and only if the value is below 2^63 |
| Identifiers.LongNumberExample | src/aqmsPostgresClient.cpp:54-65 | twenty nines convert to the identifier of eighteen nines |
| Geometry.ComputeDistanceAndAzimuth | src/callback.cpp:61-111 | without a solver failure the gap is that of the back-azimuths, at least 360 divided by their number and at most 360, and the distance the closest; with one, the parameters keep what they had reached |
| Geometry.MaximumGap | src/callback.cpp:95-110 | the running maximum over sorted neighbours and the wraparound is the gap: the size of some station-free arc, and of none smaller than another |
| Geometry.GapUnique | src/callback.cpp:95-110 | a set of directions has only one gap |
| Geometry.LargestStepIsGap | src/callback.cpp:104-108 | the largest step between sorted neighbours is the size of an arc that no direction enters at any number of turns, and no station-free arc anywhere on the circle is larger |
| Geometry.FullTurnIff | src/callback.cpp:99-100 | the gap is less than a full turn if and only if two stations differ in direction modulo 360 |
| Geometry.GapAtMostOneTurn | src/callback.cpp:95-110 | no gap of a station set exceeds 360 |
| Geometry.GapRotates | src/callback.cpp:48-52 | turning every direction by one angle modulo 360 leaves the gap the same |
| Geometry.GapOfPermutation | src/callback.cpp:103-103 | the gap does not depend on the order of the stations |
| Geometry.GapShrinks | src/callback.cpp:79-110 | a set of stations that includes another has no larger gap |
| Geometry.ArcsSumToCircle | src/callback.cpp:104-108 | the steps, the wraparound included, add up to 360 |
| Geometry.GapAtLeastAverage | src/callback.cpp:104-108 | the largest of n steps is at least 360 / n |
| Geometry.ClosestIsLeast | src/callback.cpp:91-92 | the running minimum is below every distance and is one of them or the start value |
| Geometry.ClosestInMetres | src/callback.cpp:91-92 | the closest distance is a thousandth of the least distance in metres that the solver returned, or the start value |
| Geometry.ClosestShrinks | src/callback.cpp:91-92 | further stations never increase the closest distance |
| FittedSpectra.ReadCurve | src/unpackCCTJSON.hpp:60-76 | a spectrum is read exactly when all its points can be, into frequencies as powers of ten and values, in order |
| FittedSpectra.SelectSpectra | src/unpackCCTJSON.hpp:44-108 | residuals use the points of all FIT spectra in order; the first FIT and the first and second UQ1 and UQ2 spectra are shown under their keys, each exactly when it exists |
| FittedSpectra.FitPointsByIndex | src/unpackCCTJSON.hpp:62-73 | point j of a FIT spectrum, ten to its x and its y, is the residual point right after all points of the FIT spectra before it and its own first j |
| FittedSpectra.CurvesByPosition | src/unpackCCTJSON.hpp:77-106 | "fit" shows the first FIT spectrum, the upper and lower bounds the first and second UQ1 or UQ2 spectrum, each key exactly when its spectrum is there |
| KeyOrder.KeysInOrder | src/events.hpp:80-83 | the keys of a map are visited once each, in ascending lexicographic order |
| KeyOrder.OrderUnique | src/events.hpp:80-83 | there is only one such order |
| KeyOrder.LessByFirstDifference | src/events.hpp:80-83 | a key comes before another if and only if, at the first difference, it ends or has the smaller character |
| StationMeasurements.FirstStationIsFirst | src/unpackCCTJSON.hpp:128-144 | the station of a stream is the one named by the first record that introduces the stream, if any does |
| StationMeasurements.Gather | src/unpackCCTJSON.hpp:115-174 | the first loop returns exactly for well-typed records, with the first station and all measurements of each stream identifier, written out or referred to |
| StationMeasurements.IdentifierMeans | src/unpackCCTJSON.hpp:127-148 | the identifier lifted from a stream is the one it is described under or refers to, and cannot be lifted exactly when the stream is neither |
| StationMeasurements.Residual | src/unpackCCTJSON.hpp:203-226 | value minus the fit at the first fit point within tolerance, and null exactly when none is |
| StationMeasurements.Observations | src/unpackCCTJSON.hpp:189-228 | a frequency-sorted permutation of the collected measurements, each with its residual |
| StationMeasurements.BuildGroups | src/unpackCCTJSON.hpp:181-232 | one group for each stream that has both measurements and a station, in key order, and no other |
| StationMeasurements.RegroupByStation | src/unpackCCTJSON.hpp:115-232 | the two loops return exactly for well-typed records, whatever the order in which streams are introduced and used |
| StationMeasurements.RegroupingJoins | src/unpackCCTJSON.hpp:119-232 | on the documents: a value measured under a stream identifier, written out or referred to, is shown at the mean of its two band edges, in the group of that identifier, named "network.station" by the first record that describes it, before or after |
| StationMeasurements.RegroupingConserves | src/unpackCCTJSON.hpp:115-232 | the triples in the output are, as a multiset, those recorded under a stream that some record of the whole list introduces |
| StationMeasurements.OneGroupPerKey | src/unpackCCTJSON.hpp:183-231 | no stream appears in two groups |
| StationMeasurements.ShownAtMostCounted | src/callback.cpp:188-204 | the measurements shown are never more than the observations an accept counts over the same list |
| StationMeasurements.CountsPositions | src/callback.cpp:188-204 | the observations counted are the positions in the list that hold a number |
| StationMeasurements.UnpackCctJson | src/unpackCCTJSON.hpp:18-235 | the whole unpacking returns exactly when every leaf it reads is there and well-typed, with the event, its curves and its groups |
| MagnitudeDetails.LocatedKeepsFirst | src/callback.cpp:195-233 | the location kept for a station is that of the first record that gives it one |
| MagnitudeDetails.LocateStations | src/callback.cpp:188-237 | the loop throws exactly when a leaf is ill-typed, and otherwise returns the locations and the number of numeric values |
| MagnitudeDetails.UnreadableExactly | src/callback.cpp:213-223 | the station loop throws if and only if some record has all four leaves of a station and one of the wrong type |
| MagnitudeDetails.EventRaysFrom | src/callback.cpp:174-184 | the rays run from the latitude and longitude of the event to those of each located station, in name order; there are none without both coordinates or with a latitude out of range |
| MagnitudeDetails.Extract | src/callback.cpp:138-263 | the five reference parameters after a return or a throw, on the document: the magnitude is the one read or -10, and gap and distance are those of the rays from the event to each located station, or -1 |
| CacheModel.UnpackRowShows | src/cctPostgresService.cpp:78-99 | a row is unpacked if and only if its document unpacks under its key and no column read is NULL, and then into the one event with that document, what unpacks from it, and each of the six columns |
| CacheModel.HashOfOrderedList | src/events.hpp:52-63 | the hash is that of the serialised list whose i-th element is the summary of the i-th key in order |
| CacheModel.AppliedAt | src/cctPostgresService.cpp:143-194 | after a poll each key shows, column by column, the one row that has it and unpacks, or what it showed before |
| CacheModel.LoadedIsApplied | src/cctPostgresService.cpp:73-110 | on distinct rows the load, which refuses taken keys, does what a poll of an empty cache does |
| CacheModel.NewestIsLatest | src/cctPostgresService.cpp:186-198 | the new watermark is the latest among the old one and the stamps of the rows that unpack |
| CacheModel.PollOrderIrrelevant | src/cctPostgresService.cpp:135-198 | two listings of the same answer give the same cache and watermark |
| CacheRuns.PollShows | src/cctPostgresService.cpp:135-139 | for arbitrary stamps: after a poll a row is shown as it is if and only if it was before or is stamped after the watermark |
| CacheRuns.PollAgrees | src/cctPostgresService.cpp:115-199 | a completed poll keeps the invariant, makes the cache agree with the table on all rows loaded or written since, and forgets nothing |
| CacheRuns.StepKeepsInv | src/cctPostgresService.cpp:115-349 | writes stamped later than all before, deletions, polls and reviews keep every stale or missing row above the watermark, the hash, and the bound of the watermark on all cached stamps |
| CacheRuns.LoadEstablishesInv | src/cctPostgresService.cpp:53-114 | the load of any rows of the table establishes that invariant |
| CacheRuns.RunKeepsInv | src/cctPostgresService.cpp:115-349 | the invariant holds in every state of every run, and the watermark never decreases |
| CacheRuns.PolledRunAgrees | src/cctPostgresService.cpp:115-349 | after a load and any run that ends with a poll, every row loaded or written since is cached with its own document and columns, and the hash is that of the cache |
| CacheRuns.ReviewShowsStatus | src/cctPostgresService.cpp:296-349 | after the poll of a review the cached event shows the status it was given and the rest of its row |
| CacheRuns.AnswerShown | src/cctPostgresService.cpp:143-194 | every row of an answer that unpacks is cached as it is |
| CacheRuns.StatusSetChanges | src/cctPostgresService.cpp:305-331 | the statement changes the status and stamp of the row of the event, nothing else of that row, and no other row |
| CacheRuns.CacheNeverForgets | src/cctPostgresService.cpp:143-194 | no step removes a key from the cache, so deleted rows stay |
| CacheRuns.DeletedRowStaysCached | src/cctPostgresService.cpp:245-251 | once any cached row is deleted, the event is still in the cache and no row of the table has its key |
| CacheRuns.CachedKeyConverts | src/cctPostgresService.cpp:80-81 | in every state that keeps the invariant, each cached key is the text of an identifier and converts to it, or is refused when that is negative |
| CctService.Events.Insert | src/events.hpp:30-37 | a taken key is refused and leaves the events alone; a free one is added |
| CctService.Events.Update | src/events.hpp:43-51 | the event is added or replaces its predecessor, the others unchanged |
| CctService.Events.GenerateHash | src/events.hpp:52-63 | the stored hash becomes that of the key-ordered serialisation, 0 when empty |
| CctService.Events.LightWeightDataToString | src/events.hpp:76-85 | the text is the serialisation of the list whose i-th element is the summary of the i-th key in order, empty for none |
| CctService.Events.AbsorbRows | src/cctPostgresService.cpp:143-194 | the row loop of a poll: the events, hash and watermark are those of the rows applied, and the flag is not set if the watermark stays |
| CctService.Events.LoadRows | src/cctPostgresService.cpp:72-111 | the row loop of the load, over an empty cache |
| CctService.EventTable.NewerThan | src/cctPostgresService.cpp:135-140 | the query for newer rows answers with all rows stamped strictly after the watermark, once each, and no other |
| CctService.EventTable.LatestRows | src/cctPostgresService.cpp:68-71 | the query of the load answers with at most fifty rows, none left out that was loaded into the table later than one listed |
| CctService.EventTable.SetStatus | src/cctPostgresService.cpp:305-336 | if it executes, only the row of the event changes, in its status and stamp only; else nothing does |
| CctService.Service.constructor | src/cctPostgresService.cpp:36-39 | empty caches, one for each schema, all distinct |
| CctService.Service.InitialQuery | src/cctPostgresService.cpp:53-114 | a load that goes through caches each of at most fifty latest rows that unpacks as it is, and turns the schema into the initial state of a run; a broken connection or failed query leaves it as it was |
| CctService.Service.UpdateQuery | src/cctPostgresService.cpp:115-199 | a poll that goes through caches each newer row that unpacks as it is, and is a poll step of every run the schema represents; it throws exactly when it was never loaded or the query fails, and then changes nothing |
| CctService.Service.AcceptRejectEvent | src/cctPostgresService.cpp:296-349 | success is that of the statement, which changes only the status and stamp of the row of the event; a poll follows whether or not it succeeded, and its failure is not reported |
| CctService.Service.ReviewEvent | src/cctPostgresService.cpp:493-511 | throws exactly when the schema or event is unknown or the statement did not execute; otherwise only the status and stamp of the row of the event change, and the schema moves by the review step of a run |
| CctService.Service.GetCurrentHash | src/cctPostgresService.cpp:362-367 | the hash of the events of the schema at any time between steps, 0 for an unknown schema |
| AqmsModel.RoundingErrs | src/aqmsPostgresClient.cpp:372-373 | rounding to hundredths moves a magnitude by at most 0.005 |
| AqmsModel.RoundingIdempotent | src/aqmsPostgresClient.cpp:372-373 | rounding a rounded magnitude changes nothing |
| AqmsModel.RoundedToHundredths | src/aqmsPostgresClient.cpp:372-373 | the stored magnitude is the nearest whole number of hundredths, ties going away from zero |
| AqmsModel.CodaOfJoins | src/aqmsPostgresClient.cpp:925-932 | the coda magnitudes of an event are the rows of type "w" and algorithm "LLNLCCT" on its preferred origin, by the join of the three tables |
| AqmsModel.StoredRange | src/aqmsPostgresClient.cpp:372-373 | a magnitude that passes the range check is stored between -10 and 10, and strictly inside if and only if it is strictly between -9.995 and 9.995 |
| AqmsRequests.InsertKeepsInv | src/aqmsPostgresClient.cpp:360-503 | the insert transaction keeps the coda magnitude of an origin unique and every preferred magnitude live |
| AqmsRequests.UpdateKeepsInv | src/aqmsPostgresClient.cpp:593-708 | so does the update transaction, and the event then carries the given row, rounded |
| AqmsRequests.DeleteKeepsInv | src/aqmsPostgresClient.cpp:766-849 | so does the delete transaction, and the event then has no coda magnitude |
| AqmsRequests.InsertEnters | src/aqmsPostgresClient.cpp:360-503 | a completed insert leaves the new row with every column given, its preferred-magnitude row, the credit for the user, and the version one higher exactly when a preferred magnitude was read, which then stays; else the elected one is preferred |
| AqmsRequests.UpdateEnters | src/aqmsPostgresClient.cpp:593-708 | the same for an update, whose preferred-magnitude row is entered exactly when a preferred magnitude was read |
| AqmsRequests.DeleteRemoves | src/aqmsPostgresClient.cpp:766-849 | a completed delete removes the magnitude if it has the algorithm, and exactly its preferred-magnitude rows of the event; the version grows exactly when another magnitude was read to be preferred |
| AqmsRequests.AcceptEnters | src/callback.cpp:706-758 | for any reads, on AQMS states: which magnitude an accept enters, and what it leaves in each table for it |
| AqmsRequests.RejectRemoves | src/callback.cpp:824-834 | for any reads, on AQMS states: when a reject changes nothing, and otherwise what it removes and leaves |
| AqmsRequests.AcceptCompletesExactly | src/callback.cpp:706-758 | an accept completes if and only if the preferred origin is read, no read breaks off, the existence reads agree, no statement fails and the stored procedures keep their contracts |
| AqmsRequests.RejectCompletesExactly | src/callback.cpp:824-834 | the same for a reject |
| AqmsRequests.AcceptHonest | src/callback.cpp:706-758 | an accept that completes with truthful reads leaves exactly one coda magnitude on the preferred origin, the accepted one, and touches only that one or a new one |
| AqmsRequests.RejectHonest | src/callback.cpp:824-834 | a reject that completes with truthful reads leaves no coda magnitude there, and touches at most that one |
| AqmsRequests.RejectExactly | src/aqmsPostgresClient.cpp:890-951 | for any reads, on the event of the request: a completed reject leaves a coda magnitude if and only if there was one and a failed existence or identifier read hid it |
| AqmsRequests.AcceptExactly | src/aqmsPostgresClient.cpp:890-951 | for any reads, on the event of the request: the exact condition under which a completed accept leaves just the accepted magnitude |
| AqmsRequests.AcceptKeepsPrefMagsExactly | src/aqmsPostgresClient.cpp:671-681 | for any reads: preferred-magnitude rows stay live unless a failed read entered identifier 0 and that is no magnitude of the event |
| AqmsRequests.AcceptUniqueExactly | src/aqmsPostgresClient.cpp:890-951 | for any reads: after a completed accept no origin, of whatever event, has two coda magnitudes, if and only if no magnitude was missed twice and no magnitude 0 of another kind beside a coda one was updated in place of the coda magnitude |
| AqmsRequests.AcceptKeepsEvents | src/aqmsPostgresClient.cpp:519-710 | for any reads: an accept leaves every event with a preferred origin and magnitude of its own |
| AqmsRequests.AcceptInvExactly | src/aqmsPostgresClient.cpp:861-951 | for any reads: the exact condition under which a completed accept keeps AQMS consistent |
| AqmsRequests.RejectConsistentExactly | src/aqmsPostgresClient.cpp:766-849 | for any reads: after a completed reject the preferred-magnitude rows, and the events, are consistent if and only if no magnitude 0 that another event lists, or prefers, was deleted in place of the coda magnitude; coda magnitudes stay unique |
| AqmsRequests.RejectInvExactly | src/aqmsPostgresClient.cpp:861-951 | for any reads: the exact condition under which a completed reject keeps AQMS consistent |
| AqmsRequests.AcceptTouches | src/aqmsPostgresClient.cpp:208-710 | for any reads: an accept changes one magnitude, a coda one of the event, a new one or a magnitude 0 mistaken for it, and nothing of other events but that |
| AqmsRequests.RejectTouches | src/aqmsPostgresClient.cpp:721-851 | the same for a reject, which adds none |
| AqmsRequests.LyingAcceptHitsOtherEvent | src/aqmsPostgresClient.cpp:890-895 | a consistent database and one failed identifier read where an accept succeeds for its event and gives the origin of another event a second coda magnitude |
| AqmsRequests.LyingRejectHitsOtherEvent | src/aqmsPostgresClient.cpp:890-895 | a consistent database and one failed identifier read where a reject keeps its own magnitude and deletes that of another event, which still lists and prefers it |
| AqmsClient.NetMag.SetMagnitude | src/aqms.hpp:77-85 | accepts exactly the magnitudes strictly between -10 and 10, and otherwise leaves the record as it was |
| AqmsClient.NetMag.SetGap | src/aqms.hpp:189-196 | accepts exactly 0 up to but not including 360 |
| AqmsClient.NetMag.SetDistance | src/aqms.hpp:202-209 | accepts exactly the non-negative distances |
| AqmsClient.Client.InsertNetworkMagnitude | src/aqmsPostgresClient.cpp:208-504 | the calls and statements in order amount to the insert transaction, all of it or, after any failure, none |
| AqmsClient.Client.UpdateNetworkMagnitude | src/aqmsPostgresClient.cpp:519-710 | the same for the update, refused without an existing coda magnitude |
| AqmsClient.Client.DeleteNetworkMagnitude | src/aqmsPostgresClient.cpp:721-851 | the same for the delete, which does nothing when no identifier is read |
| Reviews.StoredGap | src/callback.cpp:724-727 | with every station solved a gap is stored if and only if two stations differ in direction modulo 360 |
| Reviews.StoredDistance | src/callback.cpp:728-731 | the greatest double is stored as the distance if and only if the solver failed at the first station |
| Reviews.StoredColumns | src/callback.cpp:709-731 | every column of the magnitude an accept leaves, in terms of the document: rounded magnitude, station and observation counts, gap, distance, and the fixed type, authority, source, algorithm and flag |
| Reviews.ReplyMeans | src/callback.cpp:664-858 | the reason and the status of a reply as equivalences: none exactly when all goes through, "does not exist" exactly for an event not cached; a reject says success whenever the event is cached |
| Reviews.HalfDone | src/callback.cpp:733-760 | AQMS keeps what completed there even when the statement on the event table then fails |
| Reviews.AqmsServedFor | src/callback.cpp:706-758 | AQMS is served for the converted identifier, and an accept of a magnitude out of range fails before any write |
| Reviews.AcceptDelivers | src/callback.cpp:673-775 | from any consistent state, a reply of success means exactly one coda magnitude on the preferred origin, the extracted one, a row with status "A" if and only if the table still has the event, and no other change of the table but its stamp |
| Reviews.DeliveredMagnitude | src/aqmsPostgresClient.cpp:372-373 | the magnitude stored is within 0.005 of the extracted one and already rounded |
| Reviews.RejectDelivers | src/callback.cpp:819-851 | a reject without a reason means no coda magnitude on the preferred origin, a row with status "R" if and only if the table still has the event, and no other change of the table but its stamp |
| Reviews.RejectDeliversExactly | src/callback.cpp:819-851 | for any reads, after a reject without a reason: the exact conditions under which a coda magnitude is left, AQMS is consistent, and a row has status "R" |
| Reviews.StatusMarks | src/cctPostgresService.cpp:305-331 | the statement gives a row of the event the status if and only if there is one, and leaves the other rows; without one it succeeds all the same |
| Reviews.DeletedRowGoesUnnoticed | src/callback.cpp:666-768 | an event cached but deleted from the table, for which an accept and a reject without faults both reply success and mark nothing |
| Reviews.UnreadMagnitudeNeverStored | src/callback.cpp:684-712 | an accept changes either database or succeeds only with a magnitude read from the event and strictly between -10 and 10 |
| Reviews.SameEvent | src/callback.cpp:706-760 | for every key of a cache that keeps the invariant: the row that changes is the one whose identifier is addressed in AQMS, and every other row is as it was |
| Reviews.ServeKeepsInv | src/callback.cpp:640-859 | a request with truthful reads, however it fails, keeps AQMS consistent and touches at most the coda magnitude of its own event |
| Reviews.ServeInvExactly | src/callback.cpp:640-859 | for any reads: a request keeps AQMS consistent if and only if it is harmless |
| Reviews.RunInvExactly | src/callback.cpp:640-859 | over every run of requests with faults and any reads, and moves of other writers: all states up to any point are consistent if and only if every request served up to there was harmless |
| Reviews.RunKeepsInv | src/callback.cpp:640-859 | so with reads that answer truthfully or break off, AQMS is consistent in every state of every run |
| Reviews.FaultlessAccept | src/callback.cpp:640-783 | without faults, whichever magnitude of the event is elected, an accept succeeds if and only if the event is cached, known to AQMS with a preferred origin, and has a magnitude in range |
| Reviews.RetryRepairs | src/callback.cpp:640-783 | after any run of harmless requests, a faultless accept of such an event makes AQMS carry its magnitude, and the table its status if the row is still there |
| Callback.Handler.ExtractCached | src/callback.cpp:689-704 | a throw of the extraction is swallowed: the magnitude read so far stays, gap and distance are unset |
| Callback.Handler.BuildMagnitude | src/callback.cpp:709-731 | the record is refused exactly for a magnitude out of range, and otherwise holds just the details that are known and in range |
| Callback.Handler.AcceptInAqms | src/callback.cpp:706-758 | the AQMS part of an accept changes the database as the request says, or not at all when it throws |
| Callback.Handler.RejectInAqms | src/callback.cpp:824-834 | the same for a reject |
| Callback.Handler.Accept | src/callback.cpp:640-783 | bad requests are answered as such exactly for an empty event or unknown schema; otherwise both databases and the reply are those of the request, for the magnitude, geometry and counts extracted from the cached event, and the cache moves by the review step of a run |
| Callback.Handler.Reject | src/callback.cpp:784-859 | the same for a reject |

## Left out

- The HTTP and TLS sessions, LDAP, tokens, permissions, configuration, logging and the other request types: input and output, or one-branch checks.
- The envelope data and the heavy-weight text of an event: passed through unchanged.
- The poller thread and its timer, and the loop over the schemas that calls the load: each poll and load is a step of its own.
- A query that fails after some of its rows were read: a query answers wholly or not at all.
- What the database makes of the lowest double as a timestamp after a load without rows: the poll either answers or fails.
- The uncertainty, quality and load-date columns of NetMag, and all columns of origins but their event.
- Uniqueness constraints of EventPrefMag beyond equal rows: it is a set, and a statement they refuse is one that fails.
- NaN and infinities, rounding of floating-point operations, and integers that overflow on reading JSON.
- Undefined behaviour: reading a missing key of a constant JSON object throws in the model, and an empty time of origin is left as it is.
- The order in which `std::sort` leaves equal elements.
- CacheRuns.StepKeepsInv: for writes that unpack and are stamped later than all before, because others are never polled; CacheRuns.PollShows is stated for arbitrary ones.
