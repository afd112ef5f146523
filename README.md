# District courts survey table — a Dafny model

This project models the logic of the district-courts page of the court-quality
survey site (`src/app/maps/rayon/District-Courts/page.tsx`). The page receives
the per-district survey response `{ rayon_courts: [...] }` and turns each court
into a canonical record: five aspect scores (judge, process, staff, office,
building), an overall score, a response count, and a name and instance with
placeholders. It colours every score cell by a four-tier scale. It sorts the
table by a numeric column, and a score of 0 ("no data") always ranks lowest.
It also tracks the sort column and direction and the drill-down into one
court's detailed results.

Modules, one per component of the page:

- `Wrappers`: `Option`, and `Outcome`, which is either a returned value or a thrown exception.
- `Payload`: the raw JSON fields as variants. Each variant keeps only the
  distinctions the code reacts to: truthy or falsy, number or not, string or
  not, null or object. Also the canonical `Court` record.
- `Aspects`: lower-casing, the label classifier, the `reduce` over a court's
  aspect entries, and `LastWrite`, an independent last-write-wins reference.
  The fold is proved equal to that reference.
- `Transform`: `transformApiData`. The per-court `try` body is `NormalizeCourt`.
  The `catch` is modelled twice, as written and as intended (see Findings).
- `Rating`: `getRatingColor`.
- `Sorting`: the comparator, carried through its JavaScript result (NaN, ±Infinity
  or finite) to the ordering `Array.prototype.sort` reads from it. Then a stable
  insertion sort on a fresh array copy. The method returns a witness permutation.
- `SortingProperties`: what any stable sort under that comparator produces. The
  order is unchanged when the comparator is inactive, zeros come first when
  ascending and last when descending, and the result is unique.
- `Page`: the `Courts` component's state as a class: the loaded list, the sort
  state, the detail view flag, and the survey context's loading flag, court name
  and payload.

Three behaviours of the code are worth stating; the model follows them:

- `id` is copied verbatim from `court_id`, so a record can have no id. It is an `Option<int>` here.
- `handleCourtClick` does not block clicks while a request is in flight. Nothing here blocks them.
- A truthy `rayon_courts` that is not an array makes `transformApiData` throw
  instead of returning an empty list. `fetchCourts` then leaves the list as it was.

## Model

| member | source | states |
|---|---|---|
| `Aspects.ClassifyLabel` | src/app/maps/rayon/District-Courts/page.tsx:62-66 | a label yields an aspect exactly when its lower-case form is that aspect's Russian label, and yields none exactly when it matches no label |
| `Aspects.ClassifyCanonicalLabels` | src/app/maps/rayon/District-Courts/page.tsx:62-66 | each of здание/канцелярия/процесс/сотрудники/судья classifies as building/office/process/staff/judge |
| `Aspects.ClassifyIgnoresCase` | src/app/maps/rayon/District-Courts/page.tsx:62-66 | capitalising any selection of a label's Basic Latin and U+0430–U+045F letters does not change the aspect it names, or that it names none |
| `Aspects.ClassifyCapitalLabels` | src/app/maps/rayon/District-Courts/page.tsx:62-66 | the all-capitals and the capitalised spelling of each of the five labels classify as its aspect; the English "judge" classifies as none |
| `Aspects.LastWriteNone` | src/app/maps/rayon/District-Courts/page.tsx:56-70 | the last-write reference has no value for an aspect exactly when no valid entry names it |
| `Aspects.LastWriteSome` | src/app/maps/rayon/District-Courts/page.tsx:56-70 | when the last-write reference has a value, it is the average of a valid entry naming the aspect, and no later entry names it (last write wins) |
| `Aspects.Reduce` | src/app/maps/rayon/District-Courts/page.tsx:56-70 | one reducer step throws exactly on a null entry or on a truthy non-string label with a numeric average; otherwise only a valid entry with a recognised label writes, it overwrites its slot, and every other slot is kept |
| `Aspects.FoldFrom` | src/app/maps/rayon/District-Courts/page.tsx:56-70 | the fold never removes a slot of its accumulator |
| `Aspects.FoldFromSpec` | src/app/maps/rayon/District-Courts/page.tsx:56-70 | the fold from any accumulator throws exactly when some entry throws; otherwise each slot holds the last write, or the accumulator's old value |
| `Aspects.FoldAspects` | src/app/maps/rayon/District-Courts/page.tsx:56-70 | the fold from `{}` throws exactly when some entry throws; otherwise slot k is present exactly when some valid entry names k, and then holds the last such average |
| `Transform.AssessmentOf` | src/app/maps/rayon/District-Courts/page.tsx:77-83 | all five slots are present; each is the map's value if truthy, else 0 |
| `Transform.SlotsOfFold` | src/app/maps/rayon/District-Courts/page.tsx:56-83 | after a successful fold every slot value equals the last-write reference, with a falsy or missing value read as 0 |
| `Transform.NormalizeCourt` | src/app/maps/rayon/District-Courts/page.tsx:54-85 | a court yields a record exactly when it is an object with an aspect array none of whose entries throws; the record copies the id, defaults name/instance/overall/count independently, and each aspect slot is the last valid entry's truthy value or 0 |
| `Transform.NoRecognisedAspectsAllZero` | src/app/maps/rayon/District-Courts/page.tsx:72-84 | a valid aspect list with no recognised label gives a record whose five slots are all 0 |
| `Transform.MapCourtAsWritten` | src/app/maps/rayon/District-Courts/page.tsx:54-89 | the callback as written throws exactly for a null or undefined court; when it returns, it gives what the intended callback gives |
| `Transform.MapCourts` | src/app/maps/rayon/District-Courts/page.tsx:54-89 | one element per court; an element is a record exactly when the court is an object with an aspect array none of whose entries throws, and that record is the normalised court |
| `Transform.MapCourtsAsWritten` | src/app/maps/rayon/District-Courts/page.tsx:54-89 | when the map as written returns, it has one element per court |
| `Transform.Present` | src/app/maps/rayon/District-Courts/page.tsx:90 | `.filter(Boolean)` keeps no more elements than it is given, and keeps all of them exactly when none is null |
| `Transform.TransformApiData` | src/app/maps/rayon/District-Courts/page.tsx:48-91 | a missing or falsy `rayon_courts` (or response) gives the empty list; it throws only for a truthy non-array; for an array it returns a list no longer than the input |
| `Transform.SurvivorsAreSubsequence` | src/app/maps/rayon/District-Courts/page.tsx:54-90 | the transform's result for an array is an order-preserving subsequence of the courts: strictly increasing indices, each record the normalised court, and a court is kept exactly when its processing returned |
| `Transform.DropThrowingCourt` | src/app/maps/rayon/District-Courts/page.tsx:86-90 | inserting a court whose processing throws anywhere in the list leaves the result unchanged |
| `Transform.MapCourtsAsWrittenSpec` | src/app/maps/rayon/District-Courts/page.tsx:54-90 | the map as written throws exactly when some court is null or undefined; otherwise it equals the intended map |
| `Transform.TransformApiDataAsWritten` | src/app/maps/rayon/District-Courts/page.tsx:48-91 | the code as written gives the empty list for a missing or falsy `rayon_courts`; it throws exactly for a truthy non-array or an array with a null or undefined court; whenever it returns, it equals the intended transform |
| `Transform.NullCourtCounterexample` | src/app/maps/rayon/District-Courts/page.tsx:86-90 | for `[null, valid court]` the code as written throws, while the intended transform returns the valid court's record |
| `Rating.GetRatingColor` | src/app/maps/rayon/District-Courts/page.tsx:103-108 | gray exactly for 0; red exactly for other values ≤ 2, negatives included; yellow exactly for (2, 3.5]; green exactly above 3.5 |
| `Rating.RatingColorMonotone` | src/app/maps/rayon/District-Courts/page.tsx:103-108 | among non-zero scores a larger score never gets a lower tier, and none is gray |
| `Rating.RatingColorBoundaries` | src/app/maps/rayon/District-Courts/page.tsx:103-108 | 0 → gray, 2 → red, 3.5 → yellow, 3.51 → green, -1 → red |
| `Sorting.FieldValue` | src/app/maps/rayon/District-Courts/page.tsx:171-202 | a value is read exactly for the seven numeric columns; `number` and `name` fall to the default branch |
| `Sorting.Comparator` | src/app/maps/rayon/District-Courts/page.tsx:166-208 | inactive, the result is 0; active, two zeros give NaN (from `-Infinity - -Infinity`, lines 204-205), one zero gives the infinity that puts it first ascending and last descending, two non-zero values give their signed difference |
| `Sorting.Order` | src/app/maps/rayon/District-Courts/page.tsx:166-208 | the comparator as `sort` reads it (`SortCompare`, NaN as 0): with no column, no direction, or a non-numeric column every pair is equal; otherwise equal values are equal, and 0 ranks below every non-zero value (ascending) or above it (descending), other values by magnitude |
| `Sorting.OrderConsistent` | src/app/maps/rayon/District-Courts/page.tsx:166-208 | the comparator is consistent: reflexive equality, less and greater are converse, not-greater is transitive |
| `Sorting.SwapStep` | src/app/maps/rayon/District-Courts/page.tsx:166-208 | swapping the record being inserted past a strictly greater predecessor keeps the insertion pass's invariant |
| `Sorting.PassDone` | src/app/maps/rayon/District-Courts/page.tsx:166-208 | when the insertion pass stops, the prefix is sorted and stable |
| `Sorting.InsertAt` | src/app/maps/rayon/District-Courts/page.tsx:166-208 | one insertion pass on the array copy extends the sorted, stable, tracked prefix by one |
| `Sorting.SortCourts` | src/app/maps/rayon/District-Courts/page.tsx:166-208 | the result has the input's length and the same multiset of records; every earlier record compares not greater than every later one; an index map ties it to the input, with equal records kept in input order |
| `SortingProperties.InactiveSortKeepsOrder` | src/app/maps/rayon/District-Courts/page.tsx:166-201 | with no column or direction, or the `number`/`name` column, the sorted list equals the input |
| `SortingProperties.AscendingPutsZerosFirst` | src/app/maps/rayon/District-Courts/page.tsx:204-207 | ascending: all zero-valued records come first, in input order, then the non-zero values nondecreasing |
| `SortingProperties.DescendingPutsZerosLast` | src/app/maps/rayon/District-Courts/page.tsx:204-207 | descending: non-zero values nonincreasing, then all zero-valued records in input order |
| `SortingProperties.StableSortIsUnique` | src/app/maps/rayon/District-Courts/page.tsx:166-208 | any two stable sorts of the same list under the comparator are equal, so the result does not depend on the engine's algorithm |
| `SortingProperties.NextIndexAgrees` | src/app/maps/rayon/District-Courts/page.tsx:166-208 | two permutations listing the courts in stable-sort order that agree below a position agree at it |
| `Page.NextSort` | src/app/maps/rayon/District-Courts/page.tsx:151-158 | after a click the clicked column is selected with a direction; a new column starts ascending; the same column becomes descending exactly when it was ascending |
| `Page.ClickTwiceRestores` | src/app/maps/rayon/District-Courts/page.tsx:151-158 | clicking the current column twice restores its direction |
| `Page.RepeatedClicks` | src/app/maps/rayon/District-Courts/page.tsx:151-158 | n+1 clicks on a new column leave it ascending for even n and descending for odd n |
| `Page.CourtsPage.constructor` | src/app/maps/rayon/District-Courts/page.tsx:94-98 | empty list, no sort column or direction, detail view hidden |
| `Page.CourtsPage.LoadCourts` | src/app/maps/rayon/District-Courts/page.tsx:138-146 | the list becomes the result of the transform as written; when it throws (a truthy non-array, or a null court) the list is unchanged |
| `Page.CourtsPage.HandleSort` | src/app/maps/rayon/District-Courts/page.tsx:151-158 | the sort state becomes `NextSort` of the old state; a selected column always has a direction |
| `Page.CourtsPage.BeginCourtClick` | src/app/maps/rayon/District-Courts/page.tsx:113-114 | the loading flag is set and the court's name is published |
| `Page.CourtsPage.EndCourtClick` | src/app/maps/rayon/District-Courts/page.tsx:123-134 | loading is cleared in every case; on success the payload is stored and the detail view shown; on failure both stay as they were |
| `Page.CourtsPage.HandleCourtClick` | src/app/maps/rayon/District-Courts/page.tsx:111-135 | the whole click: name published, loading cleared, payload stored and detail view shown only on success; list and sort state untouched |

## Findings

| source | as written | input that shows it | evidently intended | confidence | as-written member | corrected member |
|---|---|---|---|---|---|---|
| src/app/maps/rayon/District-Courts/page.tsx:86-90 | the per-court `catch` logs `court.court_id`, which throws again when the element is `null` or `undefined`; the exception escapes `transformApiData` | `{ rayon_courts: [null, { court_id: 7, court: "Суд", overall_assessment: 4, total_survey_responses: 12, assessment: [] }] }` | drop only the null element and keep the other courts | high; not executed | `Transform.TransformApiDataAsWritten` | `Transform.DropThrowingCourt` |

`Transform.MapCourtAsWritten` and `Transform.TransformApiDataAsWritten` model the
code as written. `Transform.MapCourt` and `Transform.TransformApiData` are the
corrected versions. `Page.CourtsPage.LoadCourts` follows the code as written,
so a null court leaves the list as it was.
`Transform.NullCourtCounterexample` works through the input above.

## Left out

- The network: `getRayonAssessmentData`, the detail `fetch`, `getCookie` and the bearer token. The response and the fetch outcome are parameters.
- The survey-context provider (`useSurveyData`) is not part of this model. Its three setters are fields of `CourtsPage`, and the constructor assumes they start idle and empty.
- Re-entrant clicks and stale detail responses are not guarded by the code, and the model adds no guard. `BeginCourtClick` and `EndCourtClick` split the click at its `await` point.
- `renderTableCell` (`toFixed(1)` formatting) is not modelled: it formats floating point as text.
- The JSX, the `Map` component, the icons and `getSortIcon` are not modelled: they only render.
- `src/lib/utils/Data.tsx`, `src/app/maps/oblast-courts/jalal-abad/page.tsx` and `src/lib/utils/Logout/LogoutButton.tsx` are not modelled: they are UI, cookies and fetch glue.
- `console.error` / `console.warn` diagnostics are not modelled; only the throw in the `catch` block is kept.
- JavaScript numbers are reals plus NaN. ±Infinity in the payload is not modelled.
- A truthy non-string `court`/`instantiation` or a truthy non-number `overall_assessment`/`total_survey_responses` is not modelled. The code would copy it verbatim into a record field typed otherwise. `court_id` is an optional integer.
- Payload objects that carry their own `map`, `reduce` or `toLowerCase` members are not modelled. A non-array counts as lacking `map`/`reduce`, and a non-string label as lacking `toLowerCase`.
- `Aspects.ClassifyLabel`: `toLowerCase` is modelled for Basic Latin and the Cyrillic capitals U+0400–U+042F only. Other characters are left as they are, which cannot change a match against the five Cyrillic labels.
- `Sorting.SortCourts`: the engine's own algorithm is replaced by an insertion sort. `SortingProperties.StableSortIsUnique` shows that every stable sort gives the same result. The permutation is stated twice: as a multiset and as an index map.
- The `sortedCourts` value the page renders is `Sorting.SortCourts` applied to the page's `courts`, `sortField` and `sortDirection`. It has no member of its own on `CourtsPage`.
- Going back from the detail view to the list is not in this file: nothing here sets `showEvaluations` back to false.
