/**
 * The dashboard list's derived state: the search filter over the files it
 * was given, the files grouped into one bucket per IRN, and the number of
 * IRNs shown.
 */
module PdfList {
  import opened Text
  import opened Seqs
  import opened Catalog

  /** The list's search test: lower-cased key, IRN, or lower-cased file name contains the lower-cased term. */
  function ListMatcher(searchLower: string): PdfFile -> bool {
    (f: PdfFile) => Contains(ToLower(f.key), searchLower) || Contains(f.irn, searchLower)
                    || Contains(ToLower(f.name), searchLower)
  }

  /**
   * `filteredFiles`: all files while the search box holds only white space;
   * otherwise the files the (untrimmed) lower-cased term matches.
   */
  function FilteredFiles(initialFiles: seq<PdfFile>, search: string): (r: seq<PdfFile>)
    ensures Blank(search) ==> r == initialFiles
    ensures !Blank(search) ==> forall f :: f in r <==> (f in initialFiles
      && (Contains(ToLower(f.key), ToLower(search)) || Contains(f.irn, ToLower(search))
          || Contains(ToLower(f.name), ToLower(search))))
  {
    TrimEmptyIffBlank(search);
    if Trim(search) == "" then initialFiles
    else Filter(initialFiles, ListMatcher(ToLower(search)))
  }

  /** The filter keeps each matching file as often as it occurs, in the same order. */
  lemma FilteredFilesShape(initialFiles: seq<PdfFile>, search: string, f: PdfFile)
    ensures IsSubsequence(FilteredFiles(initialFiles, search), initialFiles)
    ensures !Blank(search) ==>
      multiset(FilteredFiles(initialFiles, search))[f]
        == if ListMatcher(ToLower(search))(f) then multiset(initialFiles)[f] else 0
  {
    TrimEmptyIffBlank(search);
    if Blank(search) {
      FilterAllPass(initialFiles, _ => true);
      FilterIsSubsequence(initialFiles, _ => true);
    } else {
      FilterIsSubsequence(initialFiles, ListMatcher(ToLower(search)));
      FilterCount(initialFiles, ListMatcher(ToLower(search)), f);
    }
  }

  function HasIrn(g: string): PdfFile -> bool {
    (f: PdfFile) => f.irn == g
  }

  /** The distinct IRNs of `files`. */
  function IrnsOf(files: seq<PdfFile>): set<string> {
    set f | f in files :: f.irn
  }

  lemma IrnsOfAppend(files: seq<PdfFile>, file: PdfFile)
    ensures IrnsOf(files + [file]) == IrnsOf(files) + {file.irn}
  {
    assert forall f :: f in files + [file] <==> f in files || f == file;
  }

  /** The grouping `filesByIRN` is meant to hold: one bucket per IRN of `files`, with that IRN's files in list order. */
  function GroupsOf(files: seq<PdfFile>): (groups: map<string, seq<PdfFile>>)
    ensures forall g :: g in groups ==> groups[g] != []
    ensures forall f :: f in files ==> f.irn in groups && f in groups[f.irn]
  {
    BucketsNonEmpty(files);
    map g | g in IrnsOf(files) :: Filter(files, HasIrn(g))
  }

  /** Every IRN of `files` has at least one file. */
  lemma BucketsNonEmpty(files: seq<PdfFile>)
    ensures forall g :: g in IrnsOf(files) ==> Filter(files, HasIrn(g)) != []
  {
    forall g | g in IrnsOf(files) ensures Filter(files, HasIrn(g)) != [] {
      var f :| f in files && f.irn == g;
      assert f in Filter(files, HasIrn(g));
    }
  }

  /** One step of the `reduce`: open the file's bucket when it is missing, then push the file onto it. */
  function AddToBucket(groups: map<string, seq<PdfFile>>, file: PdfFile): (r: map<string, seq<PdfFile>>)
    ensures r.Keys == groups.Keys + {file.irn}
    ensures r[file.irn] == (if file.irn in groups then groups[file.irn] else []) + [file]
    ensures forall g :: g in groups && g != file.irn ==> r[g] == groups[g]
  {
    var withBucket := if file.irn in groups then groups else groups[file.irn := []];
    withBucket[file.irn := withBucket[file.irn] + [file]]
  }

  /** Reducing one more file with the `reduce` step gives the grouping of the longer list. */
  lemma GroupsOfAppend(files: seq<PdfFile>, file: PdfFile)
    ensures GroupsOf(files + [file]) == AddToBucket(GroupsOf(files), file)
  {
    GroupsOfAppendKeys(files, file);
    GroupsOfAppendValues(files, file);
  }

  lemma GroupsOfAppendKeys(files: seq<PdfFile>, file: PdfFile)
    ensures GroupsOf(files + [file]).Keys == AddToBucket(GroupsOf(files), file).Keys
  {
    IrnsOfAppend(files, file);
  }

  lemma GroupsOfAppendValues(files: seq<PdfFile>, file: PdfFile)
    ensures forall g :: g in GroupsOf(files + [file]) && g in AddToBucket(GroupsOf(files), file) ==>
      GroupsOf(files + [file])[g] == AddToBucket(GroupsOf(files), file)[g]
  {
    forall g | g in GroupsOf(files + [file]) && g in AddToBucket(GroupsOf(files), file)
      ensures GroupsOf(files + [file])[g] == AddToBucket(GroupsOf(files), file)[g]
    {
      GroupsOfAppendAt(files, file, g);
    }
  }

  /** The bucket of one IRN after one more file, on both sides of `GroupsOfAppend`. */
  lemma GroupsOfAppendAt(files: seq<PdfFile>, file: PdfFile, g: string)
    requires g in GroupsOf(files + [file]) && g in AddToBucket(GroupsOf(files), file)
    ensures GroupsOf(files + [file])[g] == AddToBucket(GroupsOf(files), file)[g]
  {
    var before, after := GroupsOf(files), GroupsOf(files + [file]);
    assert after[g] == Filter(files + [file], HasIrn(g));
    assert g in before ==> before[g] == Filter(files, HasIrn(g));
    assert g in before <==> g in IrnsOf(files);
    BucketAppend(files, file, g);
  }

  /** The bucket of IRN `g` after one more file: the old bucket (empty when new), plus the file when it has IRN `g`. */
  lemma BucketAppend(files: seq<PdfFile>, file: PdfFile, g: string)
    ensures Filter(files + [file], HasIrn(g))
      == (if g in IrnsOf(files) then Filter(files, HasIrn(g)) else []) + (if file.irn == g then [file] else [])
  {
    FilterAppend(files, [file], HasIrn(g));
    assert Filter([file], HasIrn(g)) == if file.irn == g then [file] else [];
    if g !in IrnsOf(files) {
      forall i | 0 <= i < |files| ensures !HasIrn(g)(files[i]) {
        assert files[i].irn in IrnsOf(files);
      }
      FilterNoneMatch(files, HasIrn(g));
    }
  }

  /** The step for the `i`-th file, stated on prefixes of the whole list. */
  lemma GroupsOfPrefix(files: seq<PdfFile>, i: nat)
    requires i < |files|
    ensures GroupsOf(files[..i + 1]) == AddToBucket(GroupsOf(files[..i]), files[i])
  {
    assert files[..i + 1] == files[..i] + [files[i]];
    GroupsOfAppend(files[..i], files[i]);
  }

  /** The number of files in all the buckets together. */
  ghost function BucketTotal(groups: map<string, seq<PdfFile>>): nat
    decreases |groups|
  {
    if groups == map[] then 0
    else
      var g :| g in groups;
      |groups[g]| + BucketTotal(groups - {g})
  }

  /** The total does not depend on which bucket is counted first. */
  lemma {:induction false} BucketTotalRemove(groups: map<string, seq<PdfFile>>, k: string)
    requires k in groups
    ensures BucketTotal(groups) == |groups[k]| + BucketTotal(groups - {k})
    decreases |groups|
  {
    var g :| g in groups && BucketTotal(groups) == |groups[g]| + BucketTotal(groups - {g});
    if g != k {
      assert |groups - {g}| < |groups| by {
        assert (groups - {g}).Keys == groups.Keys - {g};
      }
      BucketTotalRemove(groups - {g}, k);
      assert |groups - {k}| < |groups| by {
        assert (groups - {k}).Keys == groups.Keys - {k};
      }
      BucketTotalRemove(groups - {k}, g);
      assert groups - {g} - {k} == groups - {k} - {g};
    }
  }

  lemma BucketTotalAppend(groups: map<string, seq<PdfFile>>, k: string, f: PdfFile)
    requires k in groups
    ensures BucketTotal(groups[k := groups[k] + [f]]) == BucketTotal(groups) + 1
  {
    var grown := groups[k := groups[k] + [f]];
    BucketTotalRemove(grown, k);
    BucketTotalRemove(groups, k);
    assert grown - {k} == groups - {k};
  }

  lemma BucketTotalNew(groups: map<string, seq<PdfFile>>, k: string)
    requires k !in groups
    ensures BucketTotal(groups[k := []]) == BucketTotal(groups)
  {
    BucketTotalRemove(groups[k := []], k);
    assert groups[k := []] - {k} == groups;
  }

  /** A `reduce` step adds one file to the buckets. */
  lemma AddToBucketTotal(groups: map<string, seq<PdfFile>>, file: PdfFile)
    ensures BucketTotal(AddToBucket(groups, file)) == BucketTotal(groups) + 1
  {
    if file.irn in groups {
      BucketTotalAppend(groups, file.irn, file);
    } else {
      BucketTotalNew(groups, file.irn);
      BucketTotalAppend(groups[file.irn := []], file.irn, file);
    }
  }

  /** The bucket sizes add up to the number of files. */
  lemma {:induction false} GroupsOfTotal(files: seq<PdfFile>)
    ensures BucketTotal(GroupsOf(files)) == |files|
  {
    if files == [] {
      assert GroupsOf(files) == map[];
    } else {
      var init, last := files[..|files| - 1], files[|files| - 1];
      assert files == init + [last];
      GroupsOfTotal(init);
      GroupsOfAppend(init, last);
      AddToBucketTotal(GroupsOf(init), last);
    }
  }

  /**
   * The buckets are keyed by the IRNs of the files; each file is in its own
   * IRN's bucket and in no other; and every bucket keeps list order.
   */
  lemma GroupsOfBuckets(files: seq<PdfFile>)
    ensures GroupsOf(files).Keys == IrnsOf(files)
    ensures forall f, g :: f in files && g in GroupsOf(files) ==> (f in GroupsOf(files)[g] <==> g == f.irn)
    ensures forall g :: g in GroupsOf(files) ==> IsSubsequence(GroupsOf(files)[g], files)
  {
    forall g | g in GroupsOf(files) ensures IsSubsequence(GroupsOf(files)[g], files) {
      FilterIsSubsequence(files, HasIrn(g));
    }
  }

  /** `filesByIRN`: the `reduce` over the filtered files, mutating a map accumulator. */
  method GroupByIrn(files: seq<PdfFile>) returns (groups: map<string, seq<PdfFile>>)
    ensures groups == GroupsOf(files)
  {
    groups := map[];
    assert files[..0] == [];
    assert GroupsOf([]) == map[];
    for i := 0 to |files|
      invariant groups == GroupsOf(files[..i])
    {
      var file := files[i];
      GroupsOfPrefix(files, i);
      if file.irn !in groups {
        groups := groups[file.irn := []];
      }
      groups := groups[file.irn := groups[file.irn] + [file]];
    }
    assert files[..|files|] == files;
  }

  /**
   * The list's derived state for `initialFiles` and the search box's
   * `search`: the filtered files, their buckets, and `irnCount`, the number
   * of distinct IRNs among them, which is 0 exactly when no file is shown.
   */
  method PdfListView(initialFiles: seq<PdfFile>, search: string)
    returns (filteredFiles: seq<PdfFile>, filesByIrn: map<string, seq<PdfFile>>, irnCount: nat)
    ensures filteredFiles == FilteredFiles(initialFiles, search)
    ensures filesByIrn == GroupsOf(filteredFiles)
    ensures BucketTotal(filesByIrn) == |filteredFiles|
    ensures irnCount == |IrnsOf(filteredFiles)|
    ensures irnCount == 0 <==> filteredFiles == []
  {
    filteredFiles := FilteredFiles(initialFiles, search);
    filesByIrn := GroupByIrn(filteredFiles);
    irnCount := |filesByIrn.Keys|;
    GroupsOfBuckets(filteredFiles);
    GroupsOfTotal(filteredFiles);
    if filteredFiles != [] {
      assert filteredFiles[0].irn in IrnsOf(filteredFiles);
    }
  }
}
