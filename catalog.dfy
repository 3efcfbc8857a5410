/**
 * Building the PDF catalog from a paginated object listing: every object on
 * every page is examined, PDFs whose names parse become records, and the
 * records are sorted by IRN (as a string) and then by page number.
 */
module Catalog {
  import opened Wrappers
  import opened Text
  import opened Seqs
  import opened FileName
  import opened Sorting

  /** One catalog record (`PDFFile`). `lastModified` is a time in milliseconds. */
  datatype PdfFile = PdfFile(key: string, name: string, size: nat, lastModified: int, irn: string, page: string)

  /** One entry of a listing response; every field is optional, as the store reports it. */
  datatype StoreObject = StoreObject(key: Option<string>, size: Option<nat>, lastModified: Option<int>)

  /** One listing response: its objects, whether it is truncated, and the token for the next request. */
  datatype Page = Page(contents: seq<StoreObject>, isTruncated: bool, nextContinuationToken: Option<string>)

  /** The store's answer to one listing request: a page, or a failure carrying the store's message. */
  type Response = Result<Page, string>

  /**
   * Why a catalog build fails: request number `call` failed, or the store
   * has no answer left for request `call` although the previous page said
   * there was more.
   */
  datatype FetchError = RequestFailed(call: nat, message: string) | PagesExhausted(call: nat)

  /**
   * The continuation token left after `page`: the next token when the page
   * is truncated, nothing otherwise; the loop goes on while it is a
   * non-empty string.
   */
  predicate HasMore(page: Page) {
    page.isTruncated && page.nextContinuationToken.Some? && page.nextContinuationToken.value != ""
  }

  /** A record as the build constructs it: a `.pdf` key whose file name parses, with `name` its file name. */
  ghost predicate WellFormed(f: PdfFile) {
    EndsWith(f.key, ".pdf")
    && Parse(f.key) == Some(ParsedName(f.irn, f.page))
    && f.name == BaseName(f.key)
  }

  /**
   * The record built from one listed object, or `None` when the object is
   * skipped. A record keeps the object's key and is well formed.
   */
  function Admit(o: StoreObject, now: int): (r: Option<PdfFile>)
    ensures r.Some? ==> o.key.Some? && r.value.key == o.key.value && WellFormed(r.value)
  {
    if o.key.None? || o.key.value == "" || !EndsWith(o.key.value, ".pdf") then None
    else
      var key := o.key.value;
      match Parse(key)
      case None => None
      case Some(parsed) =>
        Some(PdfFile(key, BaseName(key), if o.size.Some? then o.size.value else 0,
                     if o.lastModified.Some? then o.lastModified.value else now,
                     parsed.irn, parsed.page))
  }

  /**
   * An object is kept exactly when it has a key ending in `.pdf` whose file
   * name parses; its record carries that key, the reported size (0 when
   * none), the reported date (`now` when none), and the parsed groups.
   */
  lemma AdmitSpec(o: StoreObject, now: int)
    ensures Admit(o, now).Some? <==> o.key.Some? && EndsWith(o.key.value, ".pdf") && Parse(o.key.value).Some?
    ensures Admit(o, now).Some? ==> WellFormed(Admit(o, now).value) && Admit(o, now).value.key == o.key.value
    ensures Admit(o, now).Some? ==> Admit(o, now).value.size == (if o.size.Some? then o.size.value else 0)
    ensures Admit(o, now).Some? ==>
      Admit(o, now).value.lastModified == (if o.lastModified.Some? then o.lastModified.value else now)
  {
  }

  function Admitter(now: int): StoreObject -> Option<PdfFile> {
    o => Admit(o, now)
  }

  /** The records built from `objs`, in listing order. */
  function Collect(objs: seq<StoreObject>, now: int): seq<PdfFile> {
    FilterMap(objs, Admitter(now))
  }

  /** A record is collected exactly when it is built from one of the listed objects. */
  lemma CollectMembers(objs: seq<StoreObject>, now: int, f: PdfFile)
    ensures f in Collect(objs, now) <==> exists i :: 0 <= i < |objs| && Admit(objs[i], now) == Some(f)
  {
    FilterMapMembers(objs, Admitter(now), f);
  }

  lemma CollectStep(objs: seq<StoreObject>, o: StoreObject, now: int)
    ensures Collect(objs + [o], now) == Collect(objs, now) + (if Admit(o, now).Some? then [Admit(o, now).value] else [])
  {
    assert (objs + [o])[..|objs|] == objs;
  }

  /** Every collected record is well formed. */
  lemma CollectWellFormed(objs: seq<StoreObject>, now: int)
    ensures forall f :: f in Collect(objs, now) ==> WellFormed(f)
  {
    forall f | f in Collect(objs, now) ensures WellFormed(f) {
      CollectMembers(objs, now, f);
      var i :| 0 <= i < |objs| && Admit(objs[i], now) == Some(f);
      AdmitSpec(objs[i], now);
    }
  }

  /** Responses `from` onwards answer a request-after-request walk: the objects listed, or the first failure. */
  function Listing(store: seq<Response>, from: nat): (r: Result<seq<StoreObject>, FetchError>)
    ensures r.Success? ==> from < |store| && store[from].Success?
    ensures r.Success? ==> store[from].value.contents <= r.value
    ensures r.Failure? ==> from <= r.error.call
    ensures r.Failure? && r.error.RequestFailed? ==> r.error.call < |store| && store[r.error.call] == Failure(r.error.message)
    ensures r.Failure? && r.error.PagesExhausted? ==> r.error.call == if from <= |store| then |store| else from
    decreases |store| - from
  {
    if from >= |store| then Failure(PagesExhausted(from))
    else match store[from]
      case Failure(message) => Failure(RequestFailed(from, message))
      case Success(page) =>
        if !HasMore(page) then Success(page.contents)
        else match Listing(store, from + 1)
          case Failure(e) => Failure(e)
          case Success(rest) => Success(page.contents + rest)
  }

  /** The objects of a run of successful responses, in order. */
  function AllContents(pages: seq<Response>): seq<StoreObject>
    requires forall i :: 0 <= i < |pages| ==> pages[i].Success?
  {
    if pages == [] then [] else pages[0].value.contents + AllContents(pages[1..])
  }

  /**
   * When responses `from` to `last - 1` all succeed and say there is more,
   * and response `last` succeeds and says there is not, the listing is the
   * objects of exactly those pages.
   */
  lemma {:induction false} ListingCovers(store: seq<Response>, from: nat, last: nat)
    requires from <= last < |store|
    requires forall i :: from <= i < last ==> store[i].Success? && HasMore(store[i].value)
    requires store[last].Success? && !HasMore(store[last].value)
    ensures Listing(store, from) == Success(AllContents(store[from..last + 1]))
    decreases last - from
  {
    var pages := store[from..last + 1];
    if from < last {
      ListingCovers(store, from + 1, last);
      assert pages[1..] == store[from + 1..last + 1];
    } else {
      assert pages == [store[last]];
      assert AllContents(pages) == store[last].value.contents + AllContents([]);
      assert store[last].value.contents + [] == store[last].value.contents;
    }
  }

  /**
   * When responses `from` to `stop - 1` all succeed and say there is more,
   * and request `stop` fails or has no response, the whole listing fails
   * with request `stop`'s own error, or with the store exhausted at `stop`.
   */
  lemma {:induction false} ListingFails(store: seq<Response>, from: nat, stop: nat)
    requires from <= stop <= |store|
    requires forall i :: from <= i < stop ==> store[i].Success? && HasMore(store[i].value)
    requires stop < |store| ==> store[stop].Failure?
    ensures Listing(store, from)
      == Failure(if stop < |store| then RequestFailed(stop, store[stop].error) else PagesExhausted(stop))
    decreases stop - from
  {
    if from < stop {
      ListingFails(store, from + 1, stop);
    }
  }

  /** `localeCompare` on IRNs: negative, zero or positive as `a` sorts before, with or after `b`. */
  function IrnCompare(a: string, b: string): (r: int)
    ensures r == 0 <==> a == b
    ensures r < 0 <==> LexLess(a, b)
    ensures r > 0 <==> LexLess(b, a)
  {
    LexLessIrreflexive(a);
    LexLessAsymmetric(a, b);
    if a == b then 0
    else
      LexLessTotal(a, b);
      if LexLess(a, b) then -1 else 1
  }

  /** The comparator handed to `sort`: IRN first, then the numeric value of the page. */
  function Compare(a: PdfFile, b: PdfFile): (r: int)
    ensures r == 0 <==> SameKey(a, b)
    ensures r < 0 <==> LexLess(a.irn, b.irn) || (a.irn == b.irn && DigitsValue(a.page) < DigitsValue(b.page))
  {
    var irnCompare := IrnCompare(a.irn, b.irn);
    if irnCompare != 0 then irnCompare else DigitsValue(a.page) - DigitsValue(b.page)
  }

  /** `sort` puts `a` before `b` when the comparator is negative. */
  function ByIrnThenPage(): (PdfFile, PdfFile) -> bool {
    (a, b) => Compare(a, b) < 0
  }

  /** Records the comparator cannot tell apart: same IRN and same page number. */
  predicate SameKey(a: PdfFile, b: PdfFile) {
    a.irn == b.irn && DigitsValue(a.page) == DigitsValue(b.page)
  }

  /**
   * The comparator is consistent: it orders records by a strict weak order
   * whose ties are exactly the records with the same IRN and page number.
   */
  lemma ComparatorOrder()
    ensures StrictWeakOrder(ByIrnThenPage())
    ensures forall a, b :: TiedWith(b, ByIrnThenPage())(a) <==> SameKey(a, b)
  {
    var less := ByIrnThenPage();
    forall a | true ensures !less(a, a) {
      LexLessIrreflexive(a.irn);
    }
    forall a, b, c | less(a, b) && less(b, c) ensures less(a, c) {
      LexLessAsymmetric(a.irn, b.irn);
      if a.irn != b.irn && b.irn != c.irn {
        LexLessTransitive(a.irn, b.irn, c.irn);
        LexLessAsymmetric(a.irn, c.irn);
      }
    }
    forall a, b, c | less(a, c) ensures less(a, b) || less(b, c) {
      if a.irn != b.irn {
        LexLessTotal(a.irn, b.irn);
      }
      if b.irn != c.irn {
        LexLessTotal(b.irn, c.irn);
      }
      if LexLess(b.irn, a.irn) && LexLess(c.irn, b.irn) {
        LexLessTransitive(c.irn, b.irn, a.irn);
        LexLessAsymmetric(a.irn, c.irn);
      }
    }
    forall a, b ensures TiedWith(b, less)(a) <==> SameKey(a, b) {
      LexLessAsymmetric(a.irn, b.irn);
      if a.irn != b.irn {
        LexLessTotal(a.irn, b.irn);
      }
    }
  }

  /** A sorted catalog is ordered by IRN ascending, and within one IRN by page number ascending. */
  lemma SortedMeaning(s: seq<PdfFile>, i: int, j: int)
    requires Sorted(s, ByIrnThenPage()) && 0 <= i < j < |s|
    ensures s[i].irn == s[j].irn || LexLess(s[i].irn, s[j].irn)
    ensures s[i].irn == s[j].irn ==> DigitsValue(s[i].page) <= DigitsValue(s[j].page)
  {
    assert !ByIrnThenPage()(s[j], s[i]);
    if s[i].irn != s[j].irn {
      LexLessTotal(s[i].irn, s[j].irn);
    }
  }

  /** `files.sort(...)` with the comparator above. */
  function SortByIrnPage(files: seq<PdfFile>): (r: seq<PdfFile>)
    ensures Sorted(r, ByIrnThenPage())
    ensures multiset(r) == multiset(files)
  {
    ComparatorOrder();
    SortBySorted(files, ByIrnThenPage());
    SortByPermutes(files, ByIrnThenPage());
    SortBy(files, ByIrnThenPage())
  }

  /** Records with the same IRN and page number keep their listing order. */
  lemma SortByIrnPageStable(files: seq<PdfFile>, k: PdfFile)
    ensures Filter(SortByIrnPage(files), SameKeyAs(k)) == Filter(files, SameKeyAs(k))
  {
    ComparatorOrder();
    SortStable(files, ByIrnThenPage(), k);
    FilterSameFilter(SortByIrnPage(files), TiedWith(k, ByIrnThenPage()), SameKeyAs(k));
    FilterSameFilter(files, TiedWith(k, ByIrnThenPage()), SameKeyAs(k));
  }

  function SameKeyAs(k: PdfFile): PdfFile -> bool {
    (f: PdfFile) => SameKey(f, k)
  }

  /** What a catalog build returns: the sorted records of the listed objects, or the listing's failure. */
  function Fetched(store: seq<Response>, now: int): (r: Result<seq<PdfFile>, FetchError>)
    ensures r.Success? <==> Listing(store, 0).Success?
    ensures r.Failure? ==> r.error == Listing(store, 0).error
    ensures r.Success? ==> multiset(r.value) == multiset(Collect(Listing(store, 0).value, now))
  {
    match Listing(store, 0)
    case Failure(e) => Failure(e)
    case Success(objs) => Success(SortByIrnPage(Collect(objs, now)))
  }

  /** A catalog: well-formed records in sorted order. */
  ghost predicate IsCatalog(files: seq<PdfFile>) {
    Sorted(files, ByIrnThenPage()) && forall f :: f in files ==> WellFormed(f)
  }

  /** A successful build is a catalog holding exactly the collected records. */
  lemma FetchedIsCatalog(store: seq<Response>, now: int)
    requires Fetched(store, now).Success?
    ensures Listing(store, 0).Success?
    ensures IsCatalog(Fetched(store, now).value)
    ensures multiset(Fetched(store, now).value) == multiset(Collect(Listing(store, 0).value, now))
  {
    var objs := Listing(store, 0).value;
    CollectWellFormed(objs, now);
    var files := Fetched(store, now).value;
    forall f | f in files ensures WellFormed(f) {
      assert f in multiset(files);
    }
  }

  /** Glues the objects already seen in front of the rest of a listing. */
  function Prepend(seen: seq<StoreObject>, rest: Result<seq<StoreObject>, FetchError>): Result<seq<StoreObject>, FetchError> {
    match rest
    case Failure(e) => Failure(e)
    case Success(objs) => Success(seen + objs)
  }

  /** The records of two runs of objects, one after the other. */
  lemma CollectAppend(objs: seq<StoreObject>, more: seq<StoreObject>, now: int)
    ensures Collect(objs + more, now) == Collect(objs, now) + Collect(more, now)
  {
    FilterMapAppend(objs, more, Admitter(now));
  }

  /**
   * The loop over one response's objects: skip an object without a `.pdf`
   * key or whose file name does not parse, otherwise append its record.
   */
  method CollectPage(files: seq<PdfFile>, contents: seq<StoreObject>, now: int) returns (grown: seq<PdfFile>)
    ensures grown == files + Collect(contents, now)
  {
    grown := files;
    assert contents[..0] == [];
    for j := 0 to |contents|
      invariant grown == files + Collect(contents[..j], now)
    {
      var obj := contents[j];
      ghost var before := grown;
      AdmittedCases(obj, now);
      if obj.key.Some? && obj.key.value != "" && EndsWith(obj.key.value, ".pdf") {
        var parsed := Parse(obj.key.value);
        if parsed.Some? {
          grown := grown + [PdfFile(obj.key.value, BaseName(obj.key.value),
                                    if obj.size.Some? then obj.size.value else 0,
                                    if obj.lastModified.Some? then obj.lastModified.value else now,
                                    parsed.value.irn, parsed.value.page)];
        }
      }
      assert grown == before + Admitted(obj, now);
      CollectPrefix(files, contents, j, now);
    }
    assert contents[..|contents|] == contents;
  }

  /** The record built from `o`, as a sequence of zero or one records. */
  function Admitted(o: StoreObject, now: int): seq<PdfFile> {
    if Admit(o, now).Some? then [Admit(o, now).value] else []
  }

  /** The three ways an object is treated: skipped for its key, skipped for its file name, or recorded. */
  lemma AdmittedCases(o: StoreObject, now: int)
    ensures o.key.None? || o.key.value == "" || !EndsWith(o.key.value, ".pdf") ==> Admitted(o, now) == []
    ensures o.key.Some? && o.key.value != "" && EndsWith(o.key.value, ".pdf") ==>
      Admitted(o, now) == match Parse(o.key.value)
        case None => []
        case Some(parsed) =>
          [PdfFile(o.key.value, BaseName(o.key.value), if o.size.Some? then o.size.value else 0,
                   if o.lastModified.Some? then o.lastModified.value else now, parsed.irn, parsed.page)]
  {
  }

  /** One more object of a page: its record, if any, goes after those of the objects before it. */
  lemma CollectPrefix(files: seq<PdfFile>, contents: seq<StoreObject>, j: nat, now: int)
    requires j < |contents|
    ensures files + Collect(contents[..j + 1], now) == (files + Collect(contents[..j], now)) + Admitted(contents[j], now)
  {
    assert contents[..j + 1] == contents[..j] + [contents[j]];
    CollectStep(contents[..j], contents[j], now);
  }

  /** A page that says there is more contributes its objects, and the walk goes on with the next request. */
  lemma ListingStep(store: seq<Response>, call: nat, seen: seq<StoreObject>)
    requires call < |store| && store[call].Success? && HasMore(store[call].value)
    ensures Prepend(seen, Listing(store, call))
         == Prepend(seen + store[call].value.contents, Listing(store, call + 1))
  {
    if Listing(store, call + 1).Success? {
      var contents, rest := store[call].value.contents, Listing(store, call + 1).value;
      assert seen + (contents + rest) == (seen + contents) + rest;
    }
  }

  /**
   * `fetchPDFsFromR2`: request page after page while the store hands back a
   * continuation token, collect the records, then sort them. Request number
   * `i` is answered by `store[i]`; `now` stands for `new Date()`.
   */
  method FetchPdfs(store: seq<Response>, now: int) returns (r: Result<seq<PdfFile>, FetchError>)
    ensures r == Fetched(store, now)
    ensures r.Success? ==> IsCatalog(r.value)
  {
    var files: seq<PdfFile> := [];
    var call: nat := 0;
    ghost var seen: seq<StoreObject> := [];
    var continuationToken: Option<string> := None;
    assert Listing(store, 0).Success? ==> [] + Listing(store, 0).value == Listing(store, 0).value;
    while true
      invariant call <= |store|
      invariant Listing(store, 0) == Prepend(seen, Listing(store, call))
      invariant files == Collect(seen, now)
      decreases |store| - call
    {
      if call == |store| {
        return Failure(PagesExhausted(call));
      }
      match store[call]
      case Failure(message) =>
        return Failure(RequestFailed(call, message));
      case Success(page) =>
        files := CollectPage(files, page.contents, now);
        CollectAppend(seen, page.contents, now);
        continuationToken := if page.isTruncated then page.nextContinuationToken else None;
        if !(continuationToken.Some? && continuationToken.value != "") {
          assert Listing(store, call) == Success(page.contents);
          seen := seen + page.contents;
          break;
        }
        ListingStep(store, call, seen);
        seen := seen + page.contents;
        call := call + 1;
    }
    assert Listing(store, 0) == Success(seen);
    files := SortByIrnPage(files);
    r := Success(files);
    FetchedIsCatalog(store, now);
  }
}
