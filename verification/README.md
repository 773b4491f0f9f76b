# Ilumina — a Dafny model of the pole inventory and occurrence rules

Ilumina is a street-lighting maintenance platform for the municipality of
Palmital (SP). Citizens report a broken street light by locating the pole
("poste") nearest to them. Operators manage the pole inventory, the
occurrences and the QR codes stuck on the poles. An import script seeds the
inventory from a spreadsheet.

This project models the parts of the system that make decisions, as pure
functions over immutable data, and proves what those decisions guarantee:

- **Nearest pole and nearby poles.** The citizen portal picks the nearest
  pole by a strict `<` scan: ties go to the first pole and NaN distances never
  win. It lists the poles within 100 m, or 300 m when 100 m finds nothing,
  sorted by distance and cut at ten. It selects a pole by itself only when a
  single one lies within 30 m. Distance is an abstract function (`Geo`,
  `Proximity`, `CitizenPortal`, `MockData`).
- **The portal's small rules.** These are manual pole lookup, marker clicks,
  the phone mask, submit validation and the protocol format (`CitizenPortal`).
- **Inventory seeding.** The script does the following (`Seed`, with
  `JsNumbers` for `parseFloat`, `Math.round` and `String(n)`):
  - it parses locale numbers, where only the first comma becomes a point;
  - it drops rows without an IP id or with a zero coordinate;
  - it builds one record per kept row;
  - it inserts in batches of 100 with `ON CONFLICT DO NOTHING` into a store
    modelled as a map from external id to record.
- **CEP → bairro.** The lookup returns the first range of the table, in table
  order, that contains the number (`CepBairro`). Centro's range comes third
  and contains seven later ranges, so those seven can never be reported.
- **The route guard** of the operator application (`ProtectedRoute`).
- **The operator pages:**
  - the dashboard's selection toggle, export subset, occurrence filter and
    QR sheet layout: 200 poles at most, 3 × 4 labels a page (`Dashboard`);
  - the pole management search, the display, map and PDF caps, the QR dialog
    and the one-pole-a-page PDF (`PostesManagement`);
  - the occurrence list's filters and per-status actions (`OccurrencesList`).

`Common`, `Text` and `Sorting` hold what the modules share:
- JavaScript's `filter`, `find`, `some` and `slice`;
- `replace(/\D/g, "")`, `trim`, `includes`, `padStart` and `String(n)`;
- a stable insertion sort standing in for `Array.prototype.sort`.

`Posts` holds the pole record the web client loads.

The seed script keys each record by the trimmed `ID_IP` and stores
`[ID_POSTE]` as its IP list; rows sharing an `ID_POSTE` are not merged.

## Model

| member | source | states |
|---|---|---|
| Geo.NearestIndex | web/src/pages/CitizenPortal.tsx:38-49 | the `d < minDist` scan finds nothing exactly when every distance is NaN; otherwise it finds the earliest position of the least finite distance |
| Geo.ScanFrom | web/src/pages/CitizenPortal.tsx:41-47 | the loop from any position keeps "best is the first nearest of the prefix" and ends with the first nearest of the whole list |
| Geo.FirstNearestUnique | web/src/pages/CitizenPortal.tsx:43 | with a strict `<` the winning position is unique: ties go to the first pole |
| Geo.NearestOfOrigin | web/src/lib/mock-data.ts:160-170 | under the distance axioms (non-negative, zero on identical points, symmetric), standing on a pole finds a pole at distance 0 no later than it |
| Proximity.DistancesFrom | web/src/pages/CitizenPortal.tsx:42 | one distance per pole, in list order, from the given origin |
| Proximity.FindNearest | web/src/pages/CitizenPortal.tsx:38-49 | `findNearest` is null for an empty list and exactly when no distance is finite; otherwise it is the pole at the first nearest position |
| Proximity.NearestExists | web/src/pages/CitizenPortal.tsx:38-49 | with haversine-like distances a non-empty list always has a nearest pole |
| Proximity.InRadius | web/src/pages/CitizenPortal.tsx:52-54 | the `map`/`filter` keeps, in list order, each pole whose distance is at most the radius, tagged with that distance |
| Proximity.ByDistanceTotal | web/src/pages/CitizenPortal.tsx:55 | the comparator `a.distance - b.distance` is a total preorder |
| Proximity.Nearby | web/src/pages/CitizenPortal.tsx:51-57 | `getNearbyPosts` returns at most 10 poles, each within the radius at its own distance, sorted by distance |
| Proximity.SortIsStable | web/src/pages/CitizenPortal.tsx:55 | sorting candidates listed in input order keeps input order among equal distances |
| Proximity.WithinMembers | web/src/pages/CitizenPortal.tsx:54 | the radius filter keeps exactly the candidates within the radius |
| Proximity.InRadiusNarrow | web/src/pages/CitizenPortal.tsx:52-54 | filtering at a smaller radius equals filtering the larger radius's result again |
| Proximity.WithinSort | web/src/pages/CitizenPortal.tsx:54-55 | filtering by distance commutes with the stable sort |
| Proximity.WithinSortedIsPrefix | web/src/pages/CitizenPortal.tsx:55 | on a list sorted by distance, the elements within a radius form a prefix |
| Proximity.WithinTake | web/src/pages/CitizenPortal.tsx:55-56 | on a sorted list, `slice(0, n)` and the radius filter commute |
| Proximity.NearbyPrefix | web/src/pages/CitizenPortal.tsx:51-57 | for r1 ≤ r2 the result at r1 is a prefix of the result at r2 |
| Proximity.NearbyEmpty | web/src/pages/CitizenPortal.tsx:51-57 | the result is empty exactly when no pole lies within the radius |
| Proximity.NearbyComplete | web/src/pages/CitizenPortal.tsx:51-57 | a pole within the radius is missing only when ten poles that come before it in the stable order fill the list |
| Proximity.NearbyStable | web/src/pages/CitizenPortal.tsx:55 | the result is ordered by distance, then by list position |
| Proximity.NearbyNarrow | web/src/pages/CitizenPortal.tsx:51-57 | filtering the nearby poles at a smaller radius gives the nearby poles at that radius |
| Proximity.InRadiusCount | web/src/pages/CitizenPortal.tsx:54 | the filter keeps as many poles as lie within the radius |
| Proximity.NearbySingle | web/src/pages/CitizenPortal.tsx:82-84 | a single nearby pole within 30 m means a single pole within 30 m, and that pole is the first nearest |
| CitizenPortal.EscalatedSearch | web/src/pages/CitizenPortal.tsx:74-81 | the active radius is 300 m exactly when no pole lies within 100 m, and 100 m otherwise; the list is `getNearbyPosts` at that radius |
| CitizenPortal.AutoSelectIffSingle | web/src/pages/CitizenPortal.tsx:82-88 | auto-selection fires exactly when one pole lies within 30 m, and the pole it selects is `findNearest`'s pole |
| CitizenPortal.GetLocation | web/src/pages/CitizenPortal.tsx:59-100 | unsupported geolocation only sets the fallback origin; a denial selects the nearest pole to (-22.786, -50.205) and leaves the radius alone; a position selects the nearest pole and sets the escalated radius; nothing else in the state changes |
| CitizenPortal.LocateSelectsNearest | web/src/pages/CitizenPortal.tsx:82-88 | after a position fix with haversine-like distances, the selected pole is always `findNearest`'s result, in both branches |
| CitizenPortal.ManualSelect | web/src/pages/CitizenPortal.tsx:113-121 | the first pole whose id equals the trimmed input is selected; an unknown id changes nothing |
| CitizenPortal.MarkerClick | web/src/pages/CitizenPortal.tsx:229-237 | the citizen's own marker changes nothing; a pole marker selects the first pole of the list with that id; an unknown id changes nothing |
| CitizenPortal.MarkerClickAsManualSelect | web/src/pages/CitizenPortal.tsx:113-121 | clicking a pole's marker selects the same pole as typing its id by hand |
| CitizenPortal.FormatPhone | web/src/pages/CitizenPortal.tsx:123-128 | the mask holds exactly the first 11 digits d of the input: up to two as they are, up to seven as `(` d[0..2] `) ` d[2..], more as `(` d[0..2] `) ` d[2..7] `-` d[7..] |
| CitizenPortal.FormatPhoneIdempotent | web/src/pages/CitizenPortal.tsx:123-128 | masking a masked number changes nothing |
| CitizenPortal.ShortPhoneDigits | web/src/pages/CitizenPortal.tsx:126 | the `(dd) rest` form carries exactly the digits it was made from, the area code at positions 1-2 and the rest from position 5 |
| CitizenPortal.LongPhoneDigits | web/src/pages/CitizenPortal.tsx:127 | the `(dd) ddddd-rest` form carries exactly the digits it was made from, with the hyphen at position 10 |
| CitizenPortal.Submit | web/src/pages/CitizenPortal.tsx:130-142 | no pole gives the first error; fewer than 10 phone digits gives the second; otherwise the protocol is `ZU-2026-` and four digits whose value is the draw |
| CitizenPortal.ProtocolInjective | web/src/pages/CitizenPortal.tsx:142 | different draws give different protocols |
| MockData.ParseStatus | web/src/lib/mock-data.ts:3-11 | a key parses to the status whose key it is, and parses to nothing when no status has it |
| MockData.StatusKeyRoundTrip | web/src/lib/mock-data.ts:3-11 | parsing a status's key gives the status back |
| MockData.StatusMapsTotal | web/src/lib/mock-data.ts:13-44 | the label, colour and map-colour records are defined for all eight statuses and for nothing else |
| MockData.Label | web/src/lib/mock-data.ts:13-22 | every status has a non-empty label |
| MockData.LabelsInjective | web/src/lib/mock-data.ts:13-22 | different statuses have different labels |
| MockData.MockOccurrenceConsistent | web/src/lib/mock-data.ts:116-157 | every demonstration occurrence names a pole of the list, sits at its coordinates and names an existing category |
| MockData.MockProtocolsDistinct | web/src/lib/mock-data.ts:116-157 | the demonstration protocols are pairwise different |
| MockData.MockDistances | web/src/lib/mock-data.ts:175-176 | one distance per demonstration pole, in list order |
| MockData.FindNearestPost | web/src/lib/mock-data.ts:172-183 | the result is null exactly when every distance is NaN, otherwise the first pole of least distance; with haversine-like distances it is never null |
| MockData.NearestFromMockPost | web/src/lib/mock-data.ts:172-183 | standing on a demonstration pole finds a pole no later in the list at distance zero; when no two demonstration poles are at distance zero, that very pole |
| CepBairro.NormalizeCep | web/src/lib/cep-bairro.ts:50-52 | `parseInt` of the digits: NaN exactly when there is no digit, else the value of the digits |
| CepBairro.NormalizeDecimal | web/src/lib/cep-bairro.ts:50-52 | a number written in decimal normalises back to itself |
| CepBairro.NormalizeIgnoresSeparators | web/src/lib/cep-bairro.ts:51 | non-digit separators are ignored: `"19970-100"` and `"19970100"` give the same number |
| CepBairro.LookupIndex | web/src/lib/cep-bairro.ts:59-63 | the position of the first range containing the number; none when no range does |
| CepBairro.GetBairroByCep | web/src/lib/cep-bairro.ts:54-65 | a missing, empty or digit-free CEP gives "Bairro não identificado"; otherwise the first covering range's bairro, or the default when none covers it |
| CepBairro.FirstCoveringUnique | web/src/lib/cep-bairro.ts:59-63 | the first covering range is unique, so the answer is determined |
| CepBairro.LookupByCode | web/src/lib/cep-bairro.ts:56-64 | a CEP with digits resolves through the first covering range of its number |
| CepBairro.ShadowedInsideCentro | web/src/lib/cep-bairro.ts:12-47 | each listed later range lies inside Centro's range 19970050–19970970 |
| CepBairro.CentroFirst | web/src/lib/cep-bairro.ts:10-12 | every number in Centro's range resolves to Centro |
| CepBairro.ShadowedUnreachable | web/src/lib/cep-bairro.ts:59-63 | the ranges inside Centro's are never the answer |
| CepBairro.JardimDasFloresIsCentro | web/src/lib/cep-bairro.ts:12 | 19970130, inside Jardim das Flores's range, resolves to "Centro" |
| CepBairro.Names | web/src/lib/cep-bairro.ts:68 | one name per table entry, in table order |
| CepBairro.GetAllBairros | web/src/lib/cep-bairro.ts:67-69 | a permutation of the table's names, one per entry, sorted whenever the collation is a total preorder |
| CepBairro.LookupListed | web/src/lib/cep-bairro.ts:54-69 | every bairro the lookup reports, other than the default, is among `getAllBairros` |
| Sorting.SortBy | web/src/lib/cep-bairro.ts:68 | `sort` returns a permutation of its input, sorted when the comparator is a total preorder |
| Sorting.InsertSorted | web/src/pages/CitizenPortal.tsx:55 | inserting into a sorted list keeps it sorted |
| ProtectedRoute.Guard | src/components/ProtectedRoute.tsx:10-34 | spinner exactly while loading; `/login` exactly when loaded and signed out; the page exactly when signed in with a role the route admits; `/` exactly when signed in without one |
| ProtectedRoute.AdminPassesEveryGuard | src/components/ProtectedRoute.tsx:25-33 | a signed-in administrator gets every page once loaded |
| ProtectedRoute.GuardMonotone | src/components/ProtectedRoute.tsx:25-31 | gaining a role never closes a route that was open |
| ProtectedRoute.StricterRoles | src/components/ProtectedRoute.tsx:25-33 | an admin route admits no one an operator route refuses, and an operator route no one a role-free route refuses |
| Seed.ParseNumber | src/db/seed.ts:30-35 | 0 for a missing or empty cell and whenever `parseFloat` gives NaN, otherwise `parseFloat` of the text with its first comma made a point; never NaN |
| Seed.Coordinate | src/db/seed.ts:58-59 | a numeric cell is used as it is; any other cell goes through `parseNumber` |
| Seed.UnparsableCoordinate | src/db/seed.ts:58-61 | a text coordinate that does not parse reads as 0, so its row is dropped |
| Seed.NumericNaNCoordinate | src/db/seed.ts:58-61 | a numeric NaN coordinate is not `=== 0`, so it passes the zero check |
| Seed.RecordsOfKept | src/db/seed.ts:55-76 | one record per kept row, in feed order, each with a non-empty external id and non-zero coordinates |
| Seed.PrepareRecords | src/db/seed.ts:55-76 | the loop pushes exactly the records of the kept rows, in order |
| Seed.LocaleThousands | src/db/seed.ts:32-33 | `"1.500,5"` becomes `"1.500.5"`, parses as 1.5 and is stored as power `"2"` |
| Seed.ThousandsText | src/db/seed.ts:32 | only the first comma is replaced; the thousands point stays |
| Seed.ThousandsValue | src/db/seed.ts:33 | `parseFloat("1.500.5")` stops at the second point and gives 1.5 |
| Seed.PowerOfNatural | src/db/seed.ts:72 | a power written as a natural number is stored as written |
| Seed.InsertBatchCounts | src/db/seed.ts:96-103 | each returned row adds exactly one key to the table, and no more rows return than were sent |
| Seed.InsertBatchStore | src/db/seed.ts:96-100 | an insert never changes a stored record, stores every key of the batch, and adds no key from outside the batch |
| Seed.InsertKeepsStored | src/db/seed.ts:99 | an existing external id keeps its record |
| Seed.InsertStoresBatch | src/db/seed.ts:96-99 | every key of the batch is in the table afterwards |
| Seed.InsertAddsOnlyBatch | src/db/seed.ts:96-99 | every new key comes from the batch |
| Seed.InsertBatchReturned | src/db/seed.ts:96-100 | the returned rows are records of the batch, in batch order, whose keys were absent |
| Seed.InsertBatchAppend | src/db/seed.ts:93-100 | inserting `a + b` is inserting `a`, then `b` into the result |
| Seed.InsertBatchPresent | src/db/seed.ts:99 | a batch whose keys are all stored changes nothing and returns nothing |
| Seed.InsertBatchIdempotent | src/db/seed.ts:96-103 | re-running an insert inserts nothing, so a second run counts every record as skipped |
| Seed.FirstRecordWins | src/db/seed.ts:99 | with duplicate keys in a batch, the first record with an absent key is the one stored |
| Seed.NextRun | src/db/seed.ts:93-105 | one iteration advances the position by 100 |
| Seed.NextRunKeeps | src/db/seed.ts:93-105 | one iteration keeps the loop invariant: batches so far, store, counters and progress |
| Seed.NextRunChunked | src/db/seed.ts:94 | the next batch is the next slice `records.slice(i, i + 100)` |
| Seed.NextRunProgress | src/db/seed.ts:105 | each iteration logs `min(i + 100, n)` |
| Seed.NextRunInserted | src/db/seed.ts:96-103 | the store and counters after an iteration are those of inserting the records seen so far |
| Seed.RunFinished | src/db/seed.ts:93-107 | at loop exit the batches are the consecutive slices of at most 100 records, `inserted + skipped` equals the record count, and the last progress figure equals the count |
| Seed.InsertAll | src/db/seed.ts:80-107 | no records means no store interaction; otherwise the batches cover every record in order, the store is the sequential insert, `inserted + skipped == records.length`, and progress ends at the count |
| Seed.SeedRows | src/db/seed.ts:55-107 | the whole script: it stops before the store when no row is valid; otherwise it inserts the kept rows' records and accounts for each of them |
| JsNumbers.LeadingDigits | src/db/seed.ts:33 | the longest run of digits at the start of the text |
| JsNumbers.ReadLiteral | src/db/seed.ts:33 | the literal `parseFloat` reads is a prefix of the text made of digits |
| JsNumbers.ParseUnsigned | src/db/seed.ts:33 | after the sign, `Infinity` gives +∞ and anything finite is non-negative |
| JsNumbers.ParseFloat | src/db/seed.ts:33 | NaN exactly when no numeric prefix follows white space and sign; ±∞ exactly for `Infinity`; negative only after a minus sign |
| JsNumbers.ParseFloatDecimal | src/db/seed.ts:33 | `parseFloat` reads back a natural number written in decimal |
| JsNumbers.ParseFloatPointPrefix | src/db/seed.ts:33 | `parseFloat` of `a.f` followed by text that cannot continue the literal is the value of `a.f` |
| JsNumbers.PointValue | src/db/seed.ts:33 | `a.f` times `10^|f|` is the integer written `af` |
| JsNumbers.Round | src/db/seed.ts:72 | `Math.round` gives the integer nearest to the input, halves rounded up, and leaves NaN and infinities alone |
| JsNumbers.IntegerText | src/db/seed.ts:72 | `String(n)` of an integer is its decimal digits without leading zeros, after a minus sign when negative |
| Text.Digits | web/src/lib/cep-bairro.ts:51 | `replace(/\D/g, "")` keeps only digits, and a string of digits is kept whole |
| Text.DigitsAppend | web/src/pages/CitizenPortal.tsx:124 | removing non-digits distributes over concatenation |
| Text.ToDecimal | web/src/pages/Dashboard.tsx:209 | `String(n)` for a natural number is a string of digits denoting n without leading zeros |
| Text.PadStart | web/src/pages/CitizenPortal.tsx:142 | `padStart` fills with the pad character in front, up to the width |
| Text.LeadingZeros | web/src/pages/CitizenPortal.tsx:142 | zero padding does not change the value of a digit string |
| Text.Trim | src/db/seed.ts:56 | `trim` removes white space at both ends and nothing else |
| Text.TrimIdempotent | src/db/seed.ts:56 | trimming twice is trimming once |
| Text.ReplaceFirst | src/db/seed.ts:32 | `replace(",", ".")` changes only the first comma, and nothing without a comma |
| Text.ReplaceFirstAt | src/db/seed.ts:32 | any string that differs from the input only at its first comma, made a point, is the replacement's result |
| Common.Filter | src/pages/OccurrencesList.tsx:20-25 | `filter` keeps exactly the elements the predicate accepts, in order |
| Common.FilterFilter | src/pages/OccurrencesList.tsx:20-25 | filtering by one predicate and then another keeps what both accept |
| Common.Find | web/src/pages/PostesManagement.tsx:44 | `find` returns the first element the predicate accepts, and nothing only when none does |
| Common.Take | web/src/pages/PostesManagement.tsx:32 | `slice(0, n)` is a prefix of length `min(n, length)` |
| Common.Chunks | src/db/seed.ts:93-94 | the slices are non-empty, hold at most `size` elements, are all full except the last, and join up to the input |
| Common.ChunksCount | web/src/pages/Dashboard.tsx:140 | there are `Math.ceil(n / size)` slices |
| Common.Any | web/src/pages/PostesManagement.tsx:29 | `some` holds exactly when some element satisfies the predicate |
| Dashboard.WithBairro | web/src/pages/Dashboard.tsx:49-52 | every pole, in order, annotated with `getBairroByCep` of its CEP |
| Dashboard.MarkerPostId | web/src/pages/Dashboard.tsx:57-58 | a marker id names a pole exactly when it starts with `post-` and something follows, and that pole's marker id is the marker id |
| Dashboard.MarkerRoundTrip | web/src/pages/Dashboard.tsx:100 | the marker of a pole names that pole |
| Dashboard.Toggle | web/src/pages/Dashboard.tsx:54-64 | off, or on a foreign marker, nothing changes; otherwise the pole's membership flips, no other id's does, removal keeps order and addition appends |
| Dashboard.ToggleTwice | web/src/pages/Dashboard.tsx:59-63 | toggling an unselected pole twice restores the selection |
| Dashboard.ToggleKeepsDistinct | web/src/pages/Dashboard.tsx:59-63 | a selection without repeats stays without repeats |
| Dashboard.SwitchMode | web/src/pages/Dashboard.tsx:256-258 | turning selection mode off clears the selection; turning it on keeps it |
| Dashboard.OffSelectsNothing | web/src/pages/Dashboard.tsx:55 | after the switch is turned off, no series of clicks selects anything |
| Dashboard.ClicksWhileOff | web/src/pages/Dashboard.tsx:55 | with selection mode off, clicks change nothing |
| Dashboard.ClicksKeepDistinct | web/src/pages/Dashboard.tsx:59-63 | no series of clicks repeats an id |
| Dashboard.ExportPosts | web/src/pages/Dashboard.tsx:78-84 | no selection exports every pole; otherwise exactly the selected poles, in inventory order |
| Dashboard.SelectingAllExportsAll | web/src/pages/Dashboard.tsx:78-84 | selecting every pole exports the same as selecting none |
| Dashboard.FilteredOccurrences | web/src/pages/Dashboard.tsx:87-91 | an occurrence is shown exactly when the status filter admits it and the search is empty or occurs, folded, in its protocol or pole id |
| Dashboard.OccurrenceFiltersOff | web/src/pages/Dashboard.tsx:87-91 | "ALL" and an empty search show every occurrence |
| Dashboard.OccurrenceStatusExact | web/src/pages/Dashboard.tsx:88 | choosing a status shows only occurrences in that status |
| Dashboard.QrUrlInjective | web/src/pages/Dashboard.tsx:154 | different poles get different QR addresses |
| Dashboard.Label | web/src/pages/Dashboard.tsx:150-204 | label i sits at column `i % 3` and row `i / 3`, inside the three columns, and shows `Poste <id>`, a QR code of `<BASE_URL>/poste/<id>`, the street or else the bairro, and a `CEP: ` line exactly when the pole has a non-empty CEP |
| Dashboard.SameUrlSamePole | web/src/pages/Dashboard.tsx:154 | two printed labels encode the same QR address exactly when they are for the same pole id |
| Dashboard.Page | web/src/pages/Dashboard.tsx:144-151 | one label per pole of the slice, in order |
| Dashboard.PageSlice | web/src/pages/Dashboard.tsx:146 | page p's slice is non-empty, holds at most 12 poles, and they are poles `12p`, `12p+1`, … of the export |
| Dashboard.ExportPdf | web/src/pages/Dashboard.tsx:120-210 | nothing to export exactly for an empty export; otherwise `ceil(min(n, 200) / 12)` pages, each a 3 × 4 grid holding its poles in order with each label showing its own pole's heading, QR address, caption and CEP line, and the file name |
| Dashboard.PageLaidOut | web/src/pages/Dashboard.tsx:140-204 | every page is laid out in the grid and holds its own twelve poles, each label showing its pole |
| Dashboard.EveryPoleExported | web/src/pages/Dashboard.tsx:131-151 | pole k of the first 200 is label `k % 12` of page `k / 12` |
| Dashboard.LabelAt | web/src/pages/Dashboard.tsx:146-151 | the label of pole k is on page `k / 12`, slot `k % 12` |
| Dashboard.PageCountBound | web/src/pages/Dashboard.tsx:131-140 | a non-empty export has between 1 and 17 pages |
| PostesManagement.Filtered | web/src/pages/PostesManagement.tsx:27-30 | a pole is listed exactly when the folded search occurs in its id or in one of its IP numbers; order is kept |
| PostesManagement.EmptySearchMatchesAll | web/src/pages/PostesManagement.tsx:27-30 | the empty search lists every pole |
| PostesManagement.ViewsOf | web/src/pages/PostesManagement.tsx:32-41 | the list shows the first 100, the map the first 500 and the PDF the first 200 matching poles |
| PostesManagement.ViewsNest | web/src/pages/PostesManagement.tsx:32-41 | the list is a prefix of the PDF poles, and every PDF pole has its marker at the same position |
| PostesManagement.MarkerClick | web/src/pages/PostesManagement.tsx:43-49 | a known id selects the first pole with it and opens the dialog; an unknown id changes nothing |
| PostesManagement.MarkerOpensItsPole | web/src/pages/PostesManagement.tsx:43-49 | with unique ids, a pole's marker opens that pole |
| PostesManagement.DialogQr | web/src/pages/PostesManagement.tsx:270 | the dialog's QR code encodes `BASE_URL/id` of the selected pole |
| PostesManagement.FooterNumbers | web/src/pages/PostesManagement.tsx:158 | the footer names the page number from 1 and the page count, in decimal |
| PostesManagement.ExportPages | web/src/pages/PostesManagement.tsx:77-158 | one page per pole of the first 200, with the pole's heading, URL and "Página i+1 de n" |
| PostesManagement.PdfMatchesDialog | web/src/pages/PostesManagement.tsx:86 | a pole's PDF page carries the URL its QR dialog shows |
| OccurrencesList.Filtered | src/pages/OccurrencesList.tsx:20-25 | an occurrence is listed exactly when it passes the status, category and protocol-search filters; order is kept |
| OccurrencesList.FiltersOff | src/pages/OccurrencesList.tsx:21-23 | "ALL" in both boxes and an empty search list every occurrence |
| OccurrencesList.FiltersCompose | src/pages/OccurrencesList.tsx:20-25 | the status filter and the other two filters can be applied one after the other |
| OccurrencesList.StatusFilterExact | src/pages/OccurrencesList.tsx:21 | choosing a status lists only occurrences in that status |
| OccurrencesList.Actions | src/pages/OccurrencesList.tsx:88-102 | approve and reject exactly for a pending occurrence, assign exactly for an approved one, details always, no button twice |
| OccurrencesList.ApproveOrAssign | src/pages/OccurrencesList.tsx:88-102 | no row offers both approval and assignment |

## Left out

- Haversine trigonometry and IEEE arithmetic (web/src/lib/mock-data.ts:160-170). Distance is an abstract function into "NaN or a finite real", and the facts the formula satisfies mathematically are a hypothesis of the lemmas that need them.
- JsNumbers.ParseFloat works on exact reals. It does not model rounding to the nearest double, overflow to ∞ or underflow to 0.
- JsNumbers.IntegerText: `String(n)` is modelled only for integers JavaScript writes without an exponent. A spreadsheet number cell carries the text JavaScript would show for it, because `Number.prototype.toString` is out of scope.
- Case folding and collation: `toLowerCase` and `localeCompare(…, "pt-BR")` are abstract function parameters.
- CepBairro.GetAllBairros: sortedness is promised under the hypothesis that the collation is a total preorder, which is what `localeCompare` provides.
- Seed: the table's `ON CONFLICT DO NOTHING` is applied record by record within a batch. Concurrency and transactions are out of scope.
- Seed: reading the spreadsheet, dotenv, the pg pool, process exit codes and console output are left out. The script is a function of the rows and of the store.
- CitizenPortal: the following are left out:
  - browser geolocation, which is an input;
  - toasts, `setTimeout` and the loading flags;
  - `Math.random`, which is the protocol draw, an input below 9999.
- Dashboard: the following are left out:
  - `handleSelectVisible`, which depends on the map's bounds;
  - the statistics cards;
  - marker styling and popups;
  - the QR image itself, cell coordinates in millimetres, fonts and colours.
- Dashboard and PostesManagement: jsPDF creates its first page blank, and `addPage` is modelled as the next page of a list. The empty-export toast is the `NothingToExport` outcome.
- PostesManagement.ExportPages: the IP, lamp and coordinate text lines of each page are left out (web/src/pages/PostesManagement.tsx:102-104). So are the fixed title lines and the file download.
- OccurrencesList: src/lib/mock-data.ts is not part of this model. The filter is stated for any occurrence list, so it covers the demonstration list too.
- Rendering, routing, the HTTP API, authentication, the Supabase clients and both `useAuth` hooks are left out. They are I/O or framework glue. The guard takes `useAuth`'s state as input.
