# Solace advocates directory: a verified model of its core

The directory has two halves. The server endpoint `GET /api/advocates`
(`src/app/api/advocates/route.ts`) reads the advocate rows from the store. It
normalises each row into one fixed eight-field record, whatever spelling or
encoding the row uses. It then collapses records that differ only in `id`,
keeping the first, and gives every record an id. When anything on that path
throws, it replays the same pipeline over the static seed dataset. The client
page (`src/app/page.tsx`) shows the list as a table. A click on a column header
selects or toggles a sort, and the page renders a sorted copy of the list, each
row keyed by its id or by a phone/name/position fallback.

The model is in four modules:

- `Js` (`js.dfy`) covers the JavaScript values and built-ins the core depends on:
  - `??`;
  - property access;
  - `String(v)`, with integer numbers in decimal and arrays joined with ",";
  - `String.prototype.trim`, over the ECMAScript white-space set;
  - `Array.prototype.join`.
- `Sorting` (`sorting.dfy`) models the built-in stable `Array.prototype.sort` under a comparator. The comparator is a relation `le(a, b)` meaning "compares ≤ 0". `SortBy` is a stable insertion sort. It is proved to return a permutation of its input, ordered and stable. When no two elements tie, it is the only such sequence.
- `AdvocatesRoute` (`advocates_route.dfy`) models `asArray`, `normalizeRow`, `dedupe` and `GET`. The `dedupe` loop is a method, proved equal to a specification function. The properties of that function are proved as lemmas.
- `HomePage` (`home_page.dfy`) has four parts:
  - `SortState` is a class holding the page's two sort-state variables. Its `HandleSort` method is the header-click state machine.
  - The `sortedAdvocates` view.
  - The React row key.
  - The guard on the response body.

Anything outside the program is a parameter:

- `JSON.parse` is a function that returns `None` when it throws.
- `localeCompare` is a relation `le`. Ordering results require it to be a total preorder.
- `crypto.randomUUID` is an optional generator `mint`. `None` means that `crypto` exists but its `randomUUID` is null or undefined.
- The store's answer is an `Option<Value>`, where `None` means the query threw.

Two facts about the code shape the model:

- The endpoint in `route.ts` reads no query parameter and returns `{ data }` only. There is no free-text search, ranking, pagination or `total` count, and so none in the model.
- Normalisation can fail. `normalizeRow` reads `row.firstName` first, so a `null` or `undefined` row throws a TypeError. In `NormalizeRow` this is `None`. On the live path it triggers the fallback, and in the fallback it escapes the handler.

## Model

| member | source | states |
|---|---|---|
| Js.Trim | src/app/api/advocates/route.ts:32 | `trim` leaves no white space at either end, and the result is the input with only white space removed from its two ends |
| Js.TrimIdempotent | src/app/api/advocates/route.ts:25-32 | trimming twice is trimming once, so the second trim in the clean-up changes nothing for split pieces |
| Js.NumberStringIsNonEmpty | src/app/api/advocates/route.ts:47-49 | a number never prints as the empty string, and 0 prints as "0" |
| Js.Join | src/app/page.tsx:161-162 | joining no entries gives "", one entry gives that entry, and two or more start with the first entry followed by the separator |
| Js.ToStr | src/app/api/advocates/route.ts:16-23 | `String(v)` of a string is the string itself. A number prints as an optional "-" (exactly when negative) followed by decimal digits. An empty array, and an array holding a single null or undefined, print as "". An array holding one string prints as that string |
| Js.NatToDecimalInjective | src/app/page.tsx:365-369 | different row positions print as different decimal suffixes |
| Sorting.SortByPermutes | src/app/api/advocates/route.ts:34 | the sort returns a permutation of its input (equal multisets) |
| Sorting.SortBySorted | src/app/api/advocates/route.ts:34 | under a consistent comparator every earlier element compares ≤ every later one |
| Sorting.SortByStable | src/app/page.tsx:156-173 | elements that compare equal keep their input order (the built-in sort is stable) |
| Sorting.SortedPermutationsEqual | src/app/api/advocates/route.ts:34 | two ordered permutations of one multiset with no ties are equal, so the sorted result is determined by its elements |
| Sorting.SortByOrderIrrelevant | src/app/api/advocates/route.ts:31-34 | with no ties, the order of the sort's input does not matter |
| AdvocatesRoute.AsArray | src/app/api/advocates/route.ts:5-7 | an array passes through unchanged, and any other value becomes the empty list |
| AdvocatesRoute.TextField | src/app/api/advocates/route.ts:10-13 | a present (non-nullish, even falsy) camelCase value wins and is printed with `String`, then the snake_case value, else "" |
| AdvocatesRoute.FirstPresent | src/app/api/advocates/route.ts:36-38 | the first spelling whose value is present wins, in the order written. The result is null exactly when all three are absent, null or undefined |
| AdvocatesRoute.OptionalField | src/app/api/advocates/route.ts:36-49 | the first present spelling is printed with `String`, in the order written, and the field is "" when none is present |
| AdvocatesRoute.OptionalFieldPresence | src/app/api/advocates/route.ts:36-49 | presence, not truthiness: the field is "" exactly when no spelling is present or the value prints as "". A present number, 0 included, is never dropped |
| AdvocatesRoute.ZeroYearsKept | src/app/api/advocates/route.ts:36-48 | a years value of 0 under `years_of_experience` becomes "0", not "" |
| AdvocatesRoute.Split | src/app/api/advocates/route.ts:25-27 | a delimiter split gives at least one piece, and no piece holds `,` `\|` or `;` |
| AdvocatesRoute.SplitKeepsText | src/app/api/advocates/route.ts:26 | the pieces put back together are the input with its delimiters removed, so splitting loses nothing else |
| AdvocatesRoute.SplitWithoutDelimiter | src/app/api/advocates/route.ts:26 | a string with no delimiter splits into itself alone |
| AdvocatesRoute.SplitRun | src/app/api/advocates/route.ts:26 | a whole run of delimiters (such as `,;` or `\|\|`) ends one piece: in front of text that starts with a non-delimiter it adds exactly one empty piece |
| AdvocatesRoute.SplitJoinWith | src/app/api/advocates/route.ts:25-27 | round trip: non-empty delimiter-free entries separated by any runs of `,` `\|` and `;` split back into the same entries |
| AdvocatesRoute.SplitJoin | src/app/api/advocates/route.ts:25-27 | round trip: non-empty delimiter-free entries joined with "," split back into the same entries |
| AdvocatesRoute.SpecialtySource | src/app/api/advocates/route.ts:15-29 | an array `specialties` wins over any `payload`. An array `payload` wins over any `specialties` that is not an array, whether absent, null, a string, a number or an object. With neither an array nor a string, there are no entries |
| AdvocatesRoute.StringSpecialties | src/app/api/advocates/route.ts:18-29 | a string `specialties` that parses to an array is mapped with `String`, and one that parses to another value becomes one entry. One that does not parse is split and trimmed (one trimmed entry when it has no delimiter). A value of any other shape gives no entries |
| AdvocatesRoute.NonEmpty | src/app/api/advocates/route.ts:33 | every kept entry is non-empty and comes from the input |
| AdvocatesRoute.NonEmptyCounts | src/app/api/advocates/route.ts:33 | the filter keeps every non-empty entry as often as it occurs and drops every empty one |
| AdvocatesRoute.NonEmptyAppend | src/app/api/advocates/route.ts:33 | the filter keeps the input order: filtering a concatenation is concatenating the filtered parts |
| AdvocatesRoute.Clean | src/app/api/advocates/route.ts:31-34 | the cleaned list holds only trimmed, non-empty entries. It is a permutation of the trimmed non-empty source entries |
| AdvocatesRoute.CleanSorted | src/app/api/advocates/route.ts:34 | the cleaned list is ordered under the collation |
| AdvocatesRoute.CleanStable | src/app/api/advocates/route.ts:31-34 | entries that collate equal (such as "Therapy" and "therapy" under base sensitivity) keep their order from the filtered source list |
| AdvocatesRoute.NormalizeRow | src/app/api/advocates/route.ts:9-51 | it fails exactly for a null or undefined row. The id is the row's id when present, else null. The four name-like fields read `firstName`/`first_name`, `lastName`/`last_name`, `city` and `degree`, camelCase first. Years read `yearsOfExperience`, `years_of_experience`, `years` in that order, and phone reads `phoneNumber`, `phone_number`, `phone`. The specialties are the cleaned decoded source: trimmed, non-empty, and a permutation of the decoded entries |
| AdvocatesRoute.NormalizedSpecialtiesSorted | src/app/api/advocates/route.ts:31-34 | a normalised record's specialties are ordered under the collation |
| AdvocatesRoute.SameSpecialtiesSameRecord | src/app/api/advocates/route.ts:9-51 | two rows that differ only in `specialties`, whose specialties clean up alike, normalise to the same record |
| AdvocatesRoute.SpecialtyEncodingsAgree | src/app/api/advocates/route.ts:15-34 | three encodings of one list give the same record: a native array, a JSON string of that array, and the entries joined with "," |
| AdvocatesRoute.SpecialtyOrderIrrelevant | src/app/api/advocates/route.ts:31-34 | permuting the specialty entries does not change the cleaned list when no two distinct entries collate equal |
| AdvocatesRoute.Dedupe | src/app/api/advocates/route.ts:53-67 | deduplication never lengthens the list |
| AdvocatesRoute.DedupeRows | src/app/api/advocates/route.ts:53-67 | the seen-set loop returns exactly the specification `Dedupe` of its input |
| AdvocatesRoute.DedupeKeepsFirstOccurrences | src/app/api/advocates/route.ts:57-64 | the output is the subsequence of the input at the first occurrence of every content, in input order |
| AdvocatesRoute.DedupeCoversContents | src/app/api/advocates/route.ts:53-67 | every input content appears in the output, and every output record is an input record |
| AdvocatesRoute.DedupeDistinct | src/app/api/advocates/route.ts:60-62 | no two output records have the same content |
| AdvocatesRoute.DedupeOfDistinct | src/app/api/advocates/route.ts:53-67 | input whose contents are pairwise distinct passes through unchanged |
| AdvocatesRoute.DedupeIdempotent | src/app/api/advocates/route.ts:53-67 | deduplicating twice is deduplicating once |
| AdvocatesRoute.DifferentIdsCollapse | src/app/api/advocates/route.ts:58-62 | two records that differ only in id collapse to the first |
| AdvocatesRoute.FillId | src/app/api/advocates/route.ts:76 | the id is always present afterwards and the content is unchanged. A present id is kept. When `crypto.randomUUID` is null or undefined, a missing id becomes `phone-lastName` |
| AdvocatesRoute.FillIds | src/app/api/advocates/route.ts:74-77 | the same, position by position, with the length unchanged |
| AdvocatesRoute.NormalizeAll | src/app/api/advocates/route.ts:72 | mapping succeeds exactly when no row is null or undefined, and then holds each row's record at its position |
| AdvocatesRoute.Pipeline | src/app/api/advocates/route.ts:71-77 | it succeeds exactly when no row is nullish. The output is no longer than the input, every record has an id, and no two records share content |
| AdvocatesRoute.Get | src/app/api/advocates/route.ts:69-95 | a successful live path is served as is. A store failure or a throw on the live path serves the same pipeline over the static dataset. Every served record has an id |
| AdvocatesRoute.FallbackServesDedupedDataset | src/app/api/advocates/route.ts:82-89 | with the store down, the response has one record per distinct content of the dataset, in order. Ids that were present are kept |
| HomePage.SortState.constructor | src/app/page.tsx:45-46 | initially no column is selected and the direction is ascending |
| HomePage.SortState.HandleSort | src/app/page.tsx:132-140 | a click on the selected column keeps it and flips the direction. A click on another column selects it, ascending |
| HomePage.Lower | src/app/page.tsx:165-166 | `toLowerCase` keeps the length, replaces each ASCII capital by its small letter, keeps every other character and leaves no capital |
| HomePage.LowerIdempotent | src/app/page.tsx:165-166 | lower-casing twice is lower-casing once |
| HomePage.FieldText | src/app/page.tsx:157-166 | sorting by a column reads that column: the same-named field for each plain column, the id with an absent id reading as "", and the specialties joined with ", " |
| HomePage.SortKey | src/app/page.tsx:165-166 | the key is the lower-cased text of the selected column, of the same length and with no capital left |
| HomePage.SortKeyIgnoresCase | src/app/page.tsx:165-166 | two rows get the same key exactly when their column texts differ at most in letter case |
| HomePage.OrderIgnoresCase | src/app/page.tsx:165-172 | the comparator, in either direction, compares a row exactly as it compares any row whose column text differs only in letter case |
| HomePage.DescendingIsConverse | src/app/page.tsx:168-172 | the descending comparator is the ascending one with its arguments swapped |
| HomePage.SortedAdvocates | src/app/page.tsx:153-174 | with no column selected the list is shown as is. Otherwise the view is a permutation of the list |
| HomePage.OrderIsTotalPreorder | src/app/page.tsx:156-173 | the comparator is consistent in both directions whenever the collation is |
| HomePage.SortedAdvocatesOrdered | src/app/page.tsx:165-172 | ascending gives non-decreasing lower-cased column texts, descending non-increasing |
| HomePage.SpecialtiesOrderedByJoinedText | src/app/page.tsx:160-166 | the specialties column orders rows by their lower-cased lists joined with ", " |
| HomePage.SortedAdvocatesStable | src/app/page.tsx:156 | rows whose keys compare equal keep their order from the fetched list |
| HomePage.DescendingIsReversedAscending | src/app/page.tsx:168-172 | when no two rows tie, the descending view is exactly the ascending view reversed |
| HomePage.RowKey | src/app/page.tsx:365-369 | a row with an id is keyed by it |
| HomePage.RowKeysDistinct | src/app/page.tsx:391-396 | two id-less rows at different positions get different keys |
| HomePage.ResponseData | src/app/page.tsx:89 | an array `data` in the response body is taken as is. Anything else, including a null body, gives the empty list |

## Left out

- The store query (`db.select().from(advocates)`) is not modelled. Its outcome is the `fetched` parameter of `Get`, and the seed route and the schema are not part of this model.
- `JSON.parse` and `localeCompare` are parameters, for two reasons:
  - their internals (the JSON grammar, locale collation tables and the `sensitivity: "base"` option) are foreign code;
  - ordering results require only that the collation is a total preorder.
- `crypto.randomUUID` is a parameter. The fresh identifiers are `mint(i)`, and their uniqueness is not modelled.
- A runtime where `crypto` is not declared at all is not modelled. There `crypto?.randomUUID` throws a ReferenceError for an id-less record, on the live path and again in the fallback, so the handler rejects.
- `JSON.stringify` is not modelled. The dedupe key is the `Content` datatype of the seven non-id fields. Serialising strings and string lists under a fixed key order is injective, so equal keys mean equal content. The `Response` object, status and headers are not modelled either.
- Strings are sequences of Unicode scalar values, while JavaScript strings are sequences of UTF-16 code units. So lone surrogates, and lengths and indices counted in code units, are not modelled.
- Numbers are integers. Fractions, `NaN`, infinities and exponent notation in `String(n)` are not modelled.
- `String(v)` of any object prints `[object Object]`, so custom `toString` methods, dates and symbols are not modelled.
- `toLowerCase` is modelled on ASCII letters only, because Unicode case mapping is foreign table data.
- The client's data flow is not modelled: `fetchAdvocates`, abort controllers, the 300 ms debounce, the loading, searching and error flags, the resize listener, the sort icons and all rendering. These are I/O, timers and presentation.
- `src/app/styles.tsx` and `src/app/theme-provider.tsx` are not part of this model.
- Search, ranking, pagination and a `total` count are not modelled because the code has none. The client's `?q=` parameter is sent but ignored by the endpoint.
- HomePage.Advocate trusts the type the page declares: `id` is an optional string and every other field is a string. So the `?? ""` and `?? "x"` fallbacks in the row key cannot fire in the model. The endpoint can send a numeric id from the store. The page would then key the row by that number, and under `String(aVal || "")` an id of `0` would sort as "".
- HomePage.RowKey: keys of rows that carry ids are distinct only if the ids are. Nothing in the code guarantees that, so the model states no such property.
- `Array.prototype.sort` of arrays with holes, and comparators that are not consistent, are not modelled. The ordering lemmas require a total preorder.
