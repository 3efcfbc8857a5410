/**
 * Metadata encoded in an object key: `{IRN}__p{page}__{docId}.pdf`, possibly
 * under a folder prefix. Both the IRN and the page stay digit strings.
 */
module FileName {
  import opened Wrappers
  import opened Text

  datatype ParsedName = ParsedName(irn: string, page: string)

  /**
   * The regular expression `^(\d+)__p(\d+)__` matched against `name` with
   * groups `irn` and `page`. Because `_` is not a digit, a greedy `\d+`
   * can only stop where the digits stop, so this match is the only one.
   */
  ghost predicate Matches(name: string, irn: string, page: string) {
    irn != [] && page != [] && AllDigits(irn) && AllDigits(page)
    && StartsWith(name, irn + "__p" + page + "__")
  }

  /** The pattern `^(\d+)__p(\d+)__` applied to a file name. */
  function ParseName(name: string): Option<ParsedName> {
    var n := DigitRun(name);
    if n == 0 || !StartsWith(name[n..], "__p") then None
    else
      var rest := name[n + 3..];
      var m := DigitRun(rest);
      if m == 0 || !StartsWith(rest[m..], "__") then None
      else Some(ParsedName(name[..n], rest[..m]))
  }

  /**
   * `parsePDFFileName`: the IRN and page groups of the key's file name, or
   * `None`. Whatever it returns is a match of the pattern on the file name,
   * so both groups are non-empty digit strings.
   */
  function Parse(key: string): (r: Option<ParsedName>)
    ensures r.Some? ==> Matches(BaseName(key), r.value.irn, r.value.page)
  {
    ParseNameSound(BaseName(key));
    ParseName(BaseName(key))
  }

  /** What `ParseName` returns is a match of the pattern. */
  lemma ParseNameSound(name: string)
    ensures ParseName(name).Some? ==> Matches(name, ParseName(name).value.irn, ParseName(name).value.page)
  {
    if ParseName(name).Some? {
      var n := DigitRun(name);
      var rest := name[n + 3..];
      var m := DigitRun(rest);
      var irn, page := name[..n], rest[..m];
      assert name[..n + 3 + m + 2] == irn + "__p" + page + "__" by {
        assert name[n..][..3] == "__p";
        assert rest[m..][..2] == "__";
      }
    }
  }

  /** Every match of the pattern is what `ParseName` returns. */
  lemma ParseNameComplete(name: string, irn: string, page: string)
    requires Matches(name, irn, page)
    ensures ParseName(name) == Some(ParsedName(irn, page))
  {
    var pattern := irn + "__p" + page + "__";
    var tail := name[|pattern|..];
    var d := "__" + tail;
    var c := page + d;
    var b := "__p" + c;
    assert name == irn + b by {
      assert name == name[..|pattern|] + tail;
    }
    var n, m := |irn|, |page|;
    assert name[..n] == irn && name[n..] == b;
    DigitRunIs(name, n);
    assert name[n..][..3] == "__p" && name[n + 3..] == c;
    assert c[..m] == page && c[m..] == d;
    DigitRunIs(c, m);
    assert d[..2] == "__";
  }

  /**
   * `parsePDFFileName(key)` is `{irn, page}` exactly when the key's file
   * name starts with `irn` digits, `__p`, `page` digits, `__`; and `null`
   * exactly when the file name starts with no such pattern.
   */
  lemma ParseSpec(key: string, irn: string, page: string)
    ensures Parse(key) == Some(ParsedName(irn, page)) <==> Matches(BaseName(key), irn, page)
    ensures Parse(key) == None <==> forall i, p :: !Matches(BaseName(key), i, p)
  {
    var name := BaseName(key);
    ParseNameSound(name);
    if Matches(name, irn, page) {
      ParseNameComplete(name, irn, page);
    }
    if Parse(key) == None {
      forall i, p ensures !Matches(name, i, p) {
        if Matches(name, i, p) {
          ParseNameComplete(name, i, p);
        }
      }
    }
  }

  /** Only the last path segment matters: folders in front of a file name do not change the result. */
  lemma ParseIgnoresFolders(folder: string, name: string)
    requires LastSegment(name) != []
    ensures Parse(folder + "/" + name) == Parse(name)
  {
    LastSegmentAfterSlash(folder, name);
  }

  lemma {:induction false} LastSegmentAfterSlash(folder: string, name: string)
    ensures LastSegment(folder + "/" + name) == LastSegment(name)
  {
    var key := folder + "/" + name;
    if name != [] && name[|name| - 1] != '/' {
      assert key[..|key| - 1] == folder + "/" + name[..|name| - 1];
      LastSegmentAfterSlash(folder, name[..|name| - 1]);
    }
  }
}
