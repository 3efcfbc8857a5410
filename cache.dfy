/**
 * The in-memory PDF list cache: an optional snapshot of the catalog and the
 * time it was fetched, served while it is younger than five minutes,
 * refetched otherwise, and dropped on invalidation.
 */
module Cache {
  import opened Wrappers
  import opened Text
  import opened Seqs
  import opened Sorting
  import opened Catalog

  const CACHE_TTL_MS: int := 5 * 60 * 1000

  /** A snapshot of the catalog and the time, in milliseconds, it was taken. */
  datatype CacheEntry = CacheEntry(files: seq<PdfFile>, timestamp: int)

  /** `isCacheValid`: there is a snapshot and it is younger than the time to live. */
  predicate IsCacheValid(cache: Option<CacheEntry>, now: int): (valid: bool)
    ensures valid ==> cache.Some?
    ensures cache.Some? ==> (valid <==> now < cache.value.timestamp + 300000)
  {
    cache.Some? && now - cache.value.timestamp < CACHE_TTL_MS
  }

  /**
   * A snapshot is served at every moment from when it is taken until the
   * time to live has passed; at exactly that age it is stale, and once
   * stale it stays stale.
   */
  lemma CacheLifetime(entry: CacheEntry, now: int, later: int)
    ensures entry.timestamp <= now < entry.timestamp + CACHE_TTL_MS ==> IsCacheValid(Some(entry), now)
    ensures !IsCacheValid(Some(entry), entry.timestamp + CACHE_TTL_MS)
    ensures !IsCacheValid(Some(entry), now) && now <= later ==> !IsCacheValid(Some(entry), later)
  {
  }

  /** The search test of `listPDFs`: the lower-cased key, or the IRN, contains the lower-cased term. */
  function SearchMatcher(searchLower: string): PdfFile -> bool {
    (f: PdfFile) => Contains(ToLower(f.key), searchLower) || Contains(f.irn, searchLower)
  }

  /**
   * The search step of `listPDFs`: no term or an empty one keeps every file;
   * otherwise the files the term matches, in their order.
   */
  function SearchFiles(files: seq<PdfFile>, search: Option<string>): (r: seq<PdfFile>)
    ensures search.None? || search.value == "" ==> r == files
    ensures search.Some? && search.value != "" ==>
      forall f :: f in r <==> f in files && (Contains(ToLower(f.key), ToLower(search.value)) || Contains(f.irn, ToLower(search.value)))
  {
    if search.None? || search.value == "" then files
    else Filter(files, SearchMatcher(ToLower(search.value)))
  }

  /**
   * The search keeps each matching file as often as it occurs and in the
   * same order, and a catalog stays a catalog.
   */
  lemma SearchFilesShape(files: seq<PdfFile>, search: Option<string>, f: PdfFile)
    ensures IsSubsequence(SearchFiles(files, search), files)
    ensures search.Some? && search.value != "" ==>
      multiset(SearchFiles(files, search))[f] == if SearchMatcher(ToLower(search.value))(f) then multiset(files)[f] else 0
    ensures IsCatalog(files) ==> IsCatalog(SearchFiles(files, search))
  {
    if search.None? || search.value == "" {
      FilterAllPass(files, _ => true);
      FilterIsSubsequence(files, _ => true);
    } else {
      var p := SearchMatcher(ToLower(search.value));
      FilterIsSubsequence(files, p);
      FilterCount(files, p, f);
      if IsCatalog(files) {
        FilterSorted(files, p, ByIrnThenPage());
      }
    }
  }

  /** Every element of `s` sorts strictly before every later one. */
  ghost predicate StrictlyIncreasing(s: seq<string>) {
    forall i, j :: 0 <= i < j < |s| ==> LexLess(s[i], s[j])
  }

  /** Adds `x` to a strictly increasing sequence unless it is already there. */
  function InsertDistinct(x: string, s: seq<string>): (r: seq<string>)
    requires StrictlyIncreasing(s)
    ensures StrictlyIncreasing(r)
    ensures forall y :: y in r <==> y == x || y in s
  {
    if s == [] then [x]
    else if s[0] == x then s
    else if LexLess(s[0], x) then
      var rest := InsertDistinct(x, s[1..]);
      assert forall y :: y in rest ==> LexLess(s[0], y);
      [s[0]] + rest
    else
      LexLessTotal(x, s[0]);
      assert forall j :: 0 < j < |s| ==> LexLess(x, s[j]) by {
        forall j | 0 < j < |s| ensures LexLess(x, s[j]) {
          LexLessTransitive(x, s[0], s[j]);
        }
      }
      [x] + s
  }

  /** `Array.from(new Set(files.map(f => f.irn))).sort()`. */
  function UniqueIrns(files: seq<PdfFile>): (r: seq<string>)
    ensures StrictlyIncreasing(r)
    ensures forall g :: g in r <==> exists f :: f in files && f.irn == g
  {
    if files == [] then []
    else
      var init := files[..|files| - 1];
      var r := InsertDistinct(files[|files| - 1].irn, UniqueIrns(init));
      assert files == init + [files[|files| - 1]];
      r
  }

  /**
   * A strictly increasing sequence is determined by its elements, so the
   * IRNs sorted and without repeats are unique whatever order they were
   * gathered in.
   */
  lemma {:induction false} StrictlyIncreasingUnique(a: seq<string>, b: seq<string>)
    requires StrictlyIncreasing(a) && StrictlyIncreasing(b)
    requires forall x :: x in a <==> x in b
    ensures a == b
  {
    if a != [] {
      assert a[0] in a;
    }
    if b != [] {
      assert b[0] in b;
    }
    if a != [] && b != [] {
      FirstIsLeast(a, b[0]);
      FirstIsLeast(b, a[0]);
      LexLessAsymmetric(a[0], b[0]);
      forall x ensures x in a[1..] <==> x in b[1..] {
        LexLessIrreflexive(x);
        RestAreGreater(a, x);
        RestAreGreater(b, x);
      }
      StrictlyIncreasingUnique(a[1..], b[1..]);
      assert a == [a[0]] + a[1..] && b == [b[0]] + b[1..];
    }
  }

  lemma FirstIsLeast(s: seq<string>, x: string)
    requires StrictlyIncreasing(s) && x in s
    ensures x == s[0] || LexLess(s[0], x)
  {
  }

  /** In a strictly increasing sequence the elements after the first are the ones greater than it. */
  lemma RestAreGreater(s: seq<string>, x: string)
    requires StrictlyIncreasing(s) && s != []
    ensures x in s[1..] <==> x in s && LexLess(s[0], x)
  {
    LexLessIrreflexive(s[0]);
    if x in s[1..] {
      var i :| 0 <= i < |s| - 1 && s[1..][i] == x;
      assert s[i + 1] == x;
    }
    if x in s && LexLess(s[0], x) {
      var i :| 0 <= i < |s| && s[i] == x;
      assert i != 0;
      assert s[1..][i - 1] == x;
    }
  }

  /**
   * The module-level cache of `r2.ts`. `fetches` counts the refreshes
   * `listPDFs` starts, that is the catalog builds that list the store.
   */
  class PdfCache {
    var cache: Option<CacheEntry>
    ghost var fetches: nat

    /** A snapshot only ever holds a catalog. */
    ghost predicate Valid()
      reads this
    {
      cache.Some? ==> IsCatalog(cache.value.files)
    }

    /** At start-up there is no snapshot. */
    constructor ()
      ensures Valid() && cache == None && fetches == 0
    {
      cache := None;
      fetches := 0;
    }

    /**
     * `listPDFs`: rebuilds the snapshot when it is missing or stale, then
     * searches it. A failed build is returned as the error and leaves the
     * snapshot as it was.
     */
    method ListPdfs(search: Option<string>, now: int, store: seq<Response>) returns (r: Result<seq<PdfFile>, FetchError>)
      requires Valid()
      modifies this
      ensures Valid()
      ensures IsCacheValid(old(cache), now) ==>
        cache == old(cache) && fetches == old(fetches) && r == Success(SearchFiles(cache.value.files, search))
      ensures !IsCacheValid(old(cache), now) ==> fetches == old(fetches) + 1
      ensures !IsCacheValid(old(cache), now) ==> match Fetched(store, now)
        case Failure(e) => cache == old(cache) && r == Failure(e)
        case Success(files) => cache == Some(CacheEntry(files, now)) && r == Success(SearchFiles(files, search))
      ensures r.Success? ==> IsCatalog(r.value)
    {
      if !IsCacheValid(cache, now) {
        fetches := fetches + 1;
        var fetched := FetchPdfs(store, now);
        if fetched.Failure? {
          return Failure(fetched.error);
        }
        cache := Some(CacheEntry(fetched.value, now));
      }
      var files := cache.value.files;
      if search.Some? && search.value != "" {
        var searchLower := ToLower(search.value);
        files := Filter(files, SearchMatcher(searchLower));
      }
      r := Success(files);
      SearchFilesShape(cache.value.files, search, PdfFile("", "", 0, 0, "", ""));
    }

    /** `invalidatePDFCache`: drops the snapshot, whatever it was. */
    method InvalidatePdfCache()
      requires Valid()
      modifies this`cache
      ensures Valid() && cache == None
    {
      cache := None;
    }

    /** `getUniqueIRNs`: the distinct IRNs of the (possibly refreshed) snapshot, in ascending order. */
    method GetUniqueIrns(now: int, store: seq<Response>) returns (r: Result<seq<string>, FetchError>)
      requires Valid()
      modifies this
      ensures Valid()
      ensures IsCacheValid(old(cache), now) ==>
        cache == old(cache) && fetches == old(fetches) && r == Success(UniqueIrns(cache.value.files))
      ensures !IsCacheValid(old(cache), now) ==> fetches == old(fetches) + 1
      ensures !IsCacheValid(old(cache), now) ==> match Fetched(store, now)
        case Failure(e) => cache == old(cache) && r == Failure(e)
        case Success(files) => cache == Some(CacheEntry(files, now)) && r == Success(UniqueIrns(files))
    {
      var files := ListPdfs(None, now, store);
      if files.Failure? {
        return Failure(files.error);
      }
      r := Success(UniqueIrns(files.value));
    }
  }

  /**
   * Two lists within the time to live of a refresh list the store once:
   * the second is served from the snapshot the first took, with the same result.
   */
  method ListTwiceWithinTtl(c: PdfCache, search: Option<string>, t0: int, t1: int, store: seq<Response>)
    returns (r0: Result<seq<PdfFile>, FetchError>, r1: Result<seq<PdfFile>, FetchError>)
    requires c.Valid() && !IsCacheValid(c.cache, t0)
    requires t0 <= t1 < t0 + CACHE_TTL_MS
    modifies c
    ensures r0.Success? ==> r1 == r0 && c.fetches == old(c.fetches) + 1
  {
    r0 := c.ListPdfs(search, t0, store);
    r1 := c.ListPdfs(search, t1, store);
  }

  /** After an invalidation the next list always lists the store, however recent the last refresh. */
  method InvalidateThenList(c: PdfCache, search: Option<string>, now: int, store: seq<Response>)
    returns (r: Result<seq<PdfFile>, FetchError>)
    requires c.Valid()
    modifies c
    ensures c.fetches == old(c.fetches) + 1
    ensures r == match Fetched(store, now)
      case Failure(e) => Failure(e)
      case Success(files) => Success(SearchFiles(files, search))
  {
    c.InvalidatePdfCache();
    r := c.ListPdfs(search, now, store);
  }
}
