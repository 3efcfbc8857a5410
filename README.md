# PDF catalog model

A Dafny model of the PDF catalog behind the document dashboard. The server
side lists a Cloudflare R2 bucket page by page. It keeps the objects whose
key is a `.pdf` named `{IRN}__p{page}__{docId}…` and turns them into
records. It sorts those records by IRN and then by page number, and keeps
the result in an in-memory snapshot that lives for five minutes. The
browser side filters that list with a search box and groups it into one
bucket per IRN.

Modules, one per concern of the program:

- `FileName`: `parsePDFFileName`, the last path segment of a key matched against `^(\d+)__p(\d+)__`.
- `Catalog`: `fetchPDFsFromR2`.
  - The store is a sequence of responses. Request number `i` is answered by the `i`-th response, which is a page or a failure.
  - The method walks the pages while the store hands back a continuation token.
  - It builds a record for every kept object and sorts the result.
  - The method is proved against `Fetched`, a function of the store. `Fetched` is in turn characterised by lemmas: which objects are kept, which fields they get, and the order they end up in.
- `Cache`: the module-level snapshot of `r2.ts` as the class `PdfCache`.
  - It holds an optional `cache` field and a ghost count of refreshes.
  - Its methods are `listPDFs`, `invalidatePDFCache` and `getUniqueIRNs`.
  - The clock is the parameter `now`.
- `PdfList`: the derived state of the `PDFList` component.
  - `filteredFiles`.
  - `filesByIRN`, built by a loop that mutates a map the way the `reduce` mutates its accumulator, and proved equal to `GroupsOf`, the grouping defined directly from the list.
  - `irnCount`.
- `Text`, `Seqs`, `Sorting`, `Wrappers`: the string operations the code calls, a generic filter, a stable sort standing in for `Array.prototype.sort`, and `Option`/`Result`.

Two design points show up in the proofs:

- The server search (`listPDFs`) applies the term only when it is a non-empty string, and does not trim it. The client search (`filteredFiles`) skips filtering when the trimmed term is empty, but then filters with the untrimmed term. So a search for `" 123"` is a filter on all four characters, leading space included.
- `page` stays a string, but the sort compares pages by numeric value. Pages `01` and `1` of one IRN are therefore tied, and the sort keeps them in listing order (`Catalog.SortByIrnPageStable`).

## Model

| member | source | states |
|---|---|---|
| FileName.Parse | src/lib/r2.ts:56-63 | `parsePDFFileName`: whatever it returns is a match of `^(\d+)__p(\d+)__` on the key's file name, so both groups are non-empty digit strings; `FileName.ParseSpec` gives the converse |
| FileName.ParseSpec | src/lib/r2.ts:56-63 | the parser returns `{irn, page}` exactly when the file name (last `/`-segment, or the whole key when that is empty) starts with the digit group `irn`, `__p`, the digit group `page`, `__`; it returns null exactly when no such prefix exists |
| FileName.ParseNameSound | src/lib/r2.ts:58-60 | whatever the parser returns is a match of `^(\d+)__p(\d+)__` with those two groups |
| FileName.ParseNameComplete | src/lib/r2.ts:58-60 | every match of the pattern is what the parser returns (the greedy `\d+` groups are unique) |
| FileName.ParseIgnoresFolders | src/lib/r2.ts:57 | folders in front of a non-empty file name do not change the parse |
| Text.BaseName | src/lib/r2.ts:57 | the file name `key.split("/").pop() \|\| key`: a key ending in `/` (or empty) is kept whole; any other key gives its `/`-free tail, which is a suffix of the key, non-empty, and preceded by a `/` when shorter than the key |
| Text.LastSegment | src/lib/r2.ts:57 | `split("/").pop()` is a suffix of the key, has no `/`, and is preceded by a `/` when shorter than the key |
| Text.DigitRun | src/lib/r2.ts:58 | a greedy `\d+` consumes a digit prefix and stops only at a non-digit or the end |
| Text.DigitRunIs | src/lib/r2.ts:58 | a digit prefix followed by a non-digit is exactly what the greedy `\d+` consumes |
| Text.DigitsValueLeadingZero | src/lib/r2.ts:113 | `parseInt` ignores leading zeros, so pages `01` and `1` compare equal |
| Text.LexLessIrreflexive | src/lib/r2.ts:111 | the IRN comparison never puts a string before itself |
| Text.LexLessAsymmetric | src/lib/r2.ts:111 | the IRN comparison never puts two strings before each other |
| Text.LexLessTransitive | src/lib/r2.ts:111 | the IRN comparison is transitive |
| Text.LexLessTotal | src/lib/r2.ts:111 | of two different IRNs, one sorts before the other |
| Text.Trim | src/components/PDFList.tsx:50 | `trim()` returns a result no longer than the string that neither starts nor ends with white space |
| Text.TrimIsPiece | src/components/PDFList.tsx:50 | `trim()` is the slice of the string that starts where its leading white space ends, with only white space before it and after it |
| Text.ToLower | src/lib/r2.ts:139 | `toLowerCase()` on ASCII letters: the body maps each character by itself; as consequences, the length is kept, no upper-case ASCII letter is left, and no other character changes |
| Text.Contains | src/lib/r2.ts:142-143 | `includes`: the body is the definition, some position where the needle occurs; as consequences, a found needle is no longer than the haystack, and the empty needle and every prefix are found |
| Text.TrimEmptyIffBlank | src/components/PDFList.tsx:50 | `search.trim()` is empty exactly when every character of `search` is ECMAScript white space |
| Seqs.Filter | src/lib/r2.ts:140-144 | `Array.prototype.filter` keeps exactly the elements satisfying the test and no more elements than it was given |
| Seqs.FilterIsSubsequence | src/lib/r2.ts:140-144 | a filter's result keeps the input order |
| Seqs.FilterCount | src/lib/r2.ts:140-144 | a filter keeps each passing element as often as it occurs and drops each failing one |
| Catalog.Admit | src/lib/r2.ts:89-101 | one iteration of the `for…of`: a record, when one is pushed, keeps the object's key and is well formed (a `.pdf` key whose parse gives its `irn` and `page`, and its file name as `name`); `Catalog.AdmitSpec` says exactly when and with which fields |
| Catalog.AdmitSpec | src/lib/r2.ts:88-101 | an object is kept exactly when it has a key ending in `.pdf` whose file name parses; its record carries that key, its file name, the reported size (0 when none), the reported date (`now` when none) and the parsed groups |
| Catalog.CollectMembers | src/lib/r2.ts:88-102 | a record is collected exactly when it is built from one of the listed objects |
| Catalog.CollectWellFormed | src/lib/r2.ts:88-102 | every collected record is a `.pdf` key whose parse gives its `irn` and `page` and whose `name` is its file name |
| Catalog.CollectPage | src/lib/r2.ts:88-102 | the loop over one response appends to the records so far exactly the records of that response's objects, in order |
| Catalog.CollectAppend | src/lib/r2.ts:79-107 | the records of two runs of objects, one after the other, are the records of each run, one after the other |
| Catalog.Listing | src/lib/r2.ts:79-107 | the `do…while` walk from request `from`: a success starts with that request's page; a failure names a request at or after `from`, and is either that request's own failure message or the end of the store |
| Catalog.ListingStep | src/lib/r2.ts:104-107 | a page that is truncated and carries a non-empty token contributes its objects, and the walk goes on with the next request |
| Catalog.ListingCovers | src/lib/r2.ts:79-107 | when pages up to some page all say there is more and that page says there is not, the objects examined are exactly those of those pages, in order |
| Catalog.ListingFails | src/lib/r2.ts:79-107 | when every request before request `stop` succeeds and says there is more, and request `stop` fails or has no response, the listing fails with request `stop`'s own error message, or with the store exhausted at `stop` |
| Catalog.IrnCompare | src/lib/r2.ts:111 | `localeCompare` on IRNs is zero exactly for equal IRNs, negative exactly when `a` sorts first and positive exactly when `b` does |
| Catalog.Compare | src/lib/r2.ts:110-114 | the comparator is zero exactly for the same IRN and page number, and negative exactly when `a` has the smaller IRN or the same IRN and a smaller page number |
| Catalog.ComparatorOrder | src/lib/r2.ts:110-114 | the sort comparator is a strict weak order whose ties are exactly the records with the same IRN and the same page number |
| Catalog.SortedMeaning | src/lib/r2.ts:109-114 | in a sorted catalog IRNs ascend, and within one IRN the page numbers ascend |
| Catalog.SortByIrnPage | src/lib/r2.ts:110-114 | the sorted records are in comparator order and are a permutation of the input |
| Catalog.SortByIrnPageStable | src/lib/r2.ts:110-114 | records with the same IRN and page number keep their listing order |
| Sorting.SortByPermutes | src/lib/r2.ts:110-114 | the sort returns a permutation of its input |
| Sorting.SortBySorted | src/lib/r2.ts:110-114 | for a strict weak order, no element of the sort's result sorts before an earlier one |
| Sorting.InsertTies | src/lib/r2.ts:110-114 | inserting an element puts it in front of the elements it is tied with, leaving their order alone |
| Sorting.SortStable | src/lib/r2.ts:110-114 | the sort keeps the relative order of elements the comparator ties |
| Catalog.Fetched | src/lib/r2.ts:68-117 | a build succeeds exactly when the listing does, fails with the listing's error otherwise, and a success holds exactly the collected records |
| Catalog.FetchedIsCatalog | src/lib/r2.ts:68-117 | a successful build is sorted, holds only well-formed records, and is a permutation of the collected records |
| Catalog.FetchPdfs | src/lib/r2.ts:68-117 | the paging loop returns exactly `Fetched` (the sorted records of every object on every page up to the last, or the first failure), and a success is a catalog |
| Cache.IsCacheValid | src/lib/r2.ts:25-28 | `isCacheValid` is false without a snapshot, and with one it holds exactly when `now < timestamp + 300000` |
| Cache.CacheLifetime | src/lib/r2.ts:23-28 | a snapshot is served at every moment from its timestamp until `CACHE_TTL_MS` later; at exactly that age it is stale, and once stale it stays stale |
| Cache.SearchFiles | src/lib/r2.ts:137-145 | with no term or an empty term the files are returned unchanged; otherwise a file is returned exactly when its lower-cased key, or its IRN, contains the lower-cased term |
| Cache.SearchFilesShape | src/lib/r2.ts:137-147 | the search result keeps the snapshot's order and each match's multiplicity, and a catalog stays a catalog |
| Cache.UniqueIrns | src/lib/r2.ts:185-186 | the IRNs without repeats in ascending order, holding exactly the IRNs of the files |
| Cache.InsertDistinct | src/lib/r2.ts:185-186 | adding an IRN to the set keeps the sequence strictly increasing, and its elements are the old ones plus the new IRN |
| Cache.StrictlyIncreasingUnique | src/lib/r2.ts:186 | two strictly increasing sequences with the same elements are equal, so the sorted `Set` is determined by its elements |
| Cache.PdfCache.constructor | src/lib/r2.ts:22 | at start-up there is no snapshot |
| Cache.PdfCache.ListPdfs | src/lib/r2.ts:123-148 | a valid snapshot is served (searched) without listing the store and is left unchanged. Otherwise the store is listed once. On failure the error is returned and the snapshot stays as it was, even when expired. On success the snapshot becomes `{files, now}` and the search of those files is returned. Every result is a catalog |
| Cache.PdfCache.InvalidatePdfCache | src/lib/r2.ts:153-156 | whatever the snapshot was, afterwards there is none, so invalidating twice is invalidating once |
| Cache.PdfCache.GetUniqueIrns | src/lib/r2.ts:183-187 | the distinct IRNs, sorted, of the list `listPDFs()` returns, with the same hit, refresh and failure behaviour |
| Cache.ListTwiceWithinTtl | src/lib/r2.ts:123-135 | after a refresh, a second list within the time to live lists nothing and returns the same result |
| Cache.InvalidateThenList | src/lib/r2.ts:123-156 | after an invalidation the next list always lists the store and returns the search of the fresh build |
| PdfList.FilteredFiles | src/components/PDFList.tsx:49-59 | a blank search box shows `initialFiles` unchanged; otherwise a file is shown exactly when its lower-cased key, its IRN or its lower-cased name contains the untrimmed lower-cased term |
| PdfList.FilteredFilesShape | src/components/PDFList.tsx:52-58 | the filtered files keep their order and each match's multiplicity |
| PdfList.AddToBucket | src/components/PDFList.tsx:63-69 | the `reduce` callback: the keys become the old keys plus the file's IRN, that IRN's bucket becomes its old bucket (empty when missing) followed by the file, and every other bucket is unchanged |
| PdfList.GroupsOf | src/components/PDFList.tsx:61-72 | the grouping `filesByIRN` should hold: no bucket is empty, and every file is in the bucket of its own IRN |
| PdfList.BucketAppend | src/components/PDFList.tsx:64-67 | after one more file, the bucket of an IRN is its old bucket (empty when the IRN is new), followed by the file when the file has that IRN |
| PdfList.GroupsOfAppend | src/components/PDFList.tsx:63-68 | one `reduce` step (open the bucket if missing, push the file) turns the grouping of a list into the grouping of that list plus the file |
| PdfList.AddToBucketTotal | src/components/PDFList.tsx:63-68 | one `reduce` step adds exactly one file to the buckets |
| PdfList.GroupsOfTotal | src/components/PDFList.tsx:61-72 | the bucket sizes of the grouping add up to the number of files |
| PdfList.GroupsOfBuckets | src/components/PDFList.tsx:61-72 | the buckets are keyed by exactly the IRNs of the files; every file is in its own IRN's bucket and in no other; every bucket keeps list order |
| PdfList.GroupByIrn | src/components/PDFList.tsx:61-72 | the `reduce` loop builds exactly the grouping: one bucket per IRN, holding that IRN's files in list order |
| PdfList.PdfListView | src/components/PDFList.tsx:49-91 | the filtered files, their grouping, whose bucket sizes add up to the number shown, and `irnCount` = the number of distinct IRNs shown, which is 0 exactly when no file is shown |

## Left out

- The S3 client is not modelled: `getR2Client`, the credential and `R2_BUCKET` checks, and `getSignedDownloadUrl` with its presigner. These are SDK calls and configuration. A missing bucket or missing credentials would throw before the first request, like a failed request, and is not modelled separately.
- Catalog.FetchPdfs: the continuation token is not sent anywhere. Request `i` is answered by the `i`-th response of the store, so the model does not capture a store that answers according to the token value. Running out of responses while the listing still says there is more is reported as `PagesExhausted`.
- Catalog.FetchPdfs: `files.sort` sorts in place. The model sorts a sequence with a stable insertion sort. `Array.prototype.sort` is required to be stable, but its algorithm is not specified.
- `Date.now()` and `new Date()` are the parameter `now`. A single `now` serves one call, so it covers the validity check, the snapshot timestamp and the `lastModified` fallback. `lastModified` is a number of milliseconds, not a `Date`.
- `console.log` lines are left out.
- Text.ToLower: only ASCII letters are lower-cased. Unicode case mapping is not modelled.
- Catalog.IrnCompare: `localeCompare` is modelled as ordinal comparison. IRNs are ASCII digit strings, and on those the two agree.
- Text.DigitsValue: `parseInt` is exact on unbounded naturals. Page numbers beyond 2^53, where the JavaScript number loses precision, are not modelled.
- A response without `Contents` is modelled as a page with no objects.
- PdfList.GroupByIrn: the buckets are a map. The order in which `Object.keys` and `Object.entries` return integer-like keys is not modelled.
- PdfList.GroupByIrn: the accumulator of the `reduce` is a map, not a plain object. For an IRN that names an inherited property of `Object.prototype`, such as `constructor` or `toString`, the source finds a truthy non-array at line 64 and throws at line 67, while the model opens an ordinary bucket. `PdfList.PdfListView` inherits this. Such IRNs never reach the component: its files come from `listPDFs()`, whose IRNs are digit strings (`FileName.Parse`).
- Concurrent `listPDFs` calls, such as two refreshes in flight at once, are not modelled. The model is sequential.
- `formatFileSize` and `formatDate` (floating point and locale formatting), `handleDownload`, the `downloading` state and the rendering are not modelled.
- The API routes, the page and the middleware are not modelled. They are thin wrappers around the functions above.
