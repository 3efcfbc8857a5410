/**
 * `Array.prototype.sort(compareFn)` for a comparator that is a strict weak
 * order: ECMAScript requires the sort to be stable, and a stable sort's
 * result is determined, so this insertion sort is that result.
 */
module Sorting {
  import opened Seqs

  /** `less` is irreflexive, transitive, and its incomparability is transitive too. */
  ghost predicate StrictWeakOrder<T(!new)>(less: (T, T) -> bool) {
    (forall a :: !less(a, a))
    && (forall a, b, c :: less(a, b) && less(b, c) ==> less(a, c))
    && (forall a, b, c :: less(a, c) ==> less(a, b) || less(b, c))
  }

  /** No element sorts strictly before an earlier one. */
  ghost predicate Sorted<T>(s: seq<T>, less: (T, T) -> bool) {
    forall i, j :: 0 <= i < j < |s| ==> !less(s[j], s[i])
  }

  /** `x` and `k` are tied: neither sorts before the other. */
  function TiedWith<T>(k: T, less: (T, T) -> bool): T -> bool {
    x => !less(x, k) && !less(k, x)
  }

  /** Places `x` in front of the first element that does not sort strictly before it. */
  function Insert<T>(x: T, s: seq<T>, less: (T, T) -> bool): seq<T> {
    if s == [] || !less(s[0], x) then [x] + s
    else [s[0]] + Insert(x, s[1..], less)
  }

  /** Stable insertion sort by `less`. */
  function SortBy<T>(s: seq<T>, less: (T, T) -> bool): seq<T> {
    if s == [] then [] else Insert(s[0], SortBy(s[1..], less), less)
  }

  lemma {:induction false} InsertPermutes<T>(x: T, s: seq<T>, less: (T, T) -> bool)
    ensures multiset(Insert(x, s, less)) == multiset(s) + multiset{x}
  {
    if s != [] && less(s[0], x) {
      var rest := Insert(x, s[1..], less);
      InsertPermutes(x, s[1..], less);
      assert multiset(Insert(x, s, less)) == multiset{s[0]} + multiset(rest);
      assert multiset(s) == multiset{s[0]} + multiset(s[1..]) by {
        assert s == [s[0]] + s[1..];
      }
    }
  }

  /** In a strict weak order, "not before" is transitive. */
  lemma NotBeforeTransitive<T(!new)>(a: T, b: T, c: T, less: (T, T) -> bool)
    requires StrictWeakOrder(less) && !less(a, b) && !less(b, c)
    ensures !less(a, c)
  {
  }

  lemma Asymmetric<T(!new)>(a: T, b: T, less: (T, T) -> bool)
    requires StrictWeakOrder(less) && less(a, b)
    ensures !less(b, a)
  {
  }

  /** Inserting into a sorted sequence keeps it sorted. */
  lemma {:induction false} InsertSorted<T(!new)>(x: T, s: seq<T>, less: (T, T) -> bool)
    requires StrictWeakOrder(less) && Sorted(s, less)
    ensures Sorted(Insert(x, s, less), less)
  {
    if s == [] || !less(s[0], x) {
      forall j | 0 <= j < |s| ensures !less(s[j], x) {
        NotBeforeTransitive(s[j], s[0], x, less);
      }
    } else {
      var rest := Insert(x, s[1..], less);
      InsertSorted(x, s[1..], less);
      InsertPermutes(x, s[1..], less);
      forall j | 0 <= j < |rest| ensures !less(rest[j], s[0]) {
        assert rest[j] in multiset(rest);
        if rest[j] == x {
          Asymmetric(s[0], x, less);
        } else {
          assert rest[j] in multiset(s[1..]);
        }
      }
    }
  }

  /** The sort returns a permutation of its input. */
  lemma {:induction false} SortByPermutes<T>(s: seq<T>, less: (T, T) -> bool)
    ensures multiset(SortBy(s, less)) == multiset(s)
  {
    if s != [] {
      SortByPermutes(s[1..], less);
      InsertPermutes(s[0], SortBy(s[1..], less), less);
      assert s == [s[0]] + s[1..];
    }
  }

  /** For a strict weak order the sort's result is sorted. */
  lemma {:induction false} SortBySorted<T(!new)>(s: seq<T>, less: (T, T) -> bool)
    requires StrictWeakOrder(less)
    ensures Sorted(SortBy(s, less), less)
  {
    if s != [] {
      SortBySorted(s[1..], less);
      InsertSorted(s[0], SortBy(s[1..], less), less);
    }
  }

  /** Inserting `x` puts it in front of the elements it is tied with. */
  lemma {:induction false} InsertTies<T(!new)>(x: T, s: seq<T>, less: (T, T) -> bool, k: T)
    requires StrictWeakOrder(less)
    ensures Filter(Insert(x, s, less), TiedWith(k, less))
         == (if TiedWith(k, less)(x) then [x] else []) + Filter(s, TiedWith(k, less))
  {
    if s == [] || !less(s[0], x) {
      FilterCons(x, s, TiedWith(k, less));
    } else {
      InsertTies(x, s[1..], less, k);
      NotBothTied(s[0], x, less, k);
      InsertBehind(x, s, less, k);
    }
  }

  /** When `x` goes behind `s[0]` and the two are not both tied with `k`, the tied elements keep their order. */
  lemma InsertBehind<T(!new)>(x: T, s: seq<T>, less: (T, T) -> bool, k: T)
    requires s != [] && less(s[0], x)
    requires !(TiedWith(k, less)(s[0]) && TiedWith(k, less)(x))
    requires Filter(Insert(x, s[1..], less), TiedWith(k, less))
          == (if TiedWith(k, less)(x) then [x] else []) + Filter(s[1..], TiedWith(k, less))
    ensures Filter(Insert(x, s, less), TiedWith(k, less))
         == (if TiedWith(k, less)(x) then [x] else []) + Filter(s, TiedWith(k, less))
  {
    var tied := TiedWith(k, less);
    var rest := Insert(x, s[1..], less);
    FilterCons(s[0], rest, tied);
    assert s == [s[0]] + s[1..];
    FilterCons(s[0], s[1..], tied);
    SwapHeads(s[0], x, tied(s[0]), tied(x), Filter(Insert(x, s, less), tied), Filter(rest, tied),
              Filter(s, tied), Filter(s[1..], tied));
  }

  /**
   * With at most one of the heads `h` and `x` kept, keeping `h` in front of
   * `x` or `x` in front of `h` gives the same sequence.
   */
  lemma SwapHeads<T>(h: T, x: T, keepH: bool, keepX: bool,
                     withBoth: seq<T>, withX: seq<T>, withH: seq<T>, neither: seq<T>)
    requires !(keepH && keepX)
    requires withBoth == (if keepH then [h] else []) + withX
    requires withX == (if keepX then [x] else []) + neither
    requires withH == (if keepH then [h] else []) + neither
    ensures withBoth == (if keepX then [x] else []) + withH
  {
    if keepX {
      assert withBoth == [] + withX;
    }
  }

  /** Of two elements in strict order, at most one is tied with a given `k`. */
  lemma NotBothTied<T(!new)>(a: T, b: T, less: (T, T) -> bool, k: T)
    requires StrictWeakOrder(less) && less(a, b)
    ensures !(TiedWith(k, less)(a) && TiedWith(k, less)(b))
  {
    assert less(a, k) || less(k, b);
  }

  /** The sort is stable: elements tied with one another keep their input order. */
  lemma {:induction false} SortStable<T(!new)>(s: seq<T>, less: (T, T) -> bool, k: T)
    requires StrictWeakOrder(less)
    ensures Filter(SortBy(s, less), TiedWith(k, less)) == Filter(s, TiedWith(k, less))
  {
    if s != [] {
      SortStable(s[1..], less, k);
      InsertTies(s[0], SortBy(s[1..], less), less, k);
    }
  }

  /** Filtering a sorted sequence leaves it sorted. */
  lemma {:induction false} FilterSorted<T(!new)>(s: seq<T>, p: T -> bool, less: (T, T) -> bool)
    requires Sorted(s, less)
    ensures Sorted(Filter(s, p), less)
  {
    if s != [] {
      FilterSorted(s[1..], p, less);
      FilterCons(s[0], s[1..], p);
      assert s == [s[0]] + s[1..];
      var rest := Filter(s[1..], p);
      forall j | 0 <= j < |rest| ensures !less(rest[j], s[0]) {
        assert rest[j] in s[1..];
      }
    }
  }
}
