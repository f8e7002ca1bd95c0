/**
 * The ordering used by the sorted listing: the three comparators selected by the
 * sort key, a stable insertion sort as the reference definition of `List.sort`,
 * its proofs (sorted, permutation, stable) and the in-place array sort proved
 * to compute it.
 */
module Sorting {
  import opened Common
  import opened Text
  import opened Model

  datatype SortField = ByPrice | ByCategory | ByName

  /** The switch on `sortBy.toLowerCase()`; "name" and every unrecognised key select the name order. */
  function SortFieldOf(sortBy: string): (f: SortField)
    ensures f == ByPrice <==> Lower(sortBy) == "price"
    ensures f == ByCategory <==> Lower(sortBy) == "category"
    ensures f == ByName <==> Lower(sortBy) != "price" && Lower(sortBy) != "category"
  {
    var key := Lower(sortBy);
    if key == "price" then ByPrice
    else if key == "category" then ByCategory
    else ByName
  }

  /** The key is matched in any letter case. */
  lemma SortFieldIgnoresCase(a: string, b: string)
    requires Lower(a) == Lower(b)
    ensures SortFieldOf(a) == SortFieldOf(b)
  {
  }

  /** The comparator can be applied: only the price comparator has no null handling. */
  predicate Keyed(p: ProductData, field: SortField) {
    field != ByPrice || p.price.Some?
  }

  predicate AllKeyed(s: seq<ProductData>, field: SortField) {
    forall p | p in s :: Keyed(p, field)
  }

  /** BigDecimal.compareTo: the numeric order, scale ignored. */
  function ComparePrice(x: real, y: real): int {
    if x < y then -1 else if x == y then 0 else 1
  }

  /** `Comparator.nullsLast(Comparator.naturalOrder())` on strings. */
  function CompareNullsLast(x: Option<string>, y: Option<string>): int {
    match (x, y)
    case (None, None) => 0
    case (None, Some(_)) => 1
    case (Some(_), None) => -1
    case (Some(a), Some(b)) => CompareTo(a, b)
  }

  /** `Comparator.comparing(getter, order)` for the selected field. */
  function Compare(a: ProductData, b: ProductData, field: SortField): int
    requires Keyed(a, field) && Keyed(b, field)
  {
    match field
    case ByPrice => ComparePrice(a.price.value, b.price.value)
    case ByCategory => CompareNullsLast(a.category, b.category)
    case ByName => CompareNullsLast(a.name, b.name)
  }

  predicate Le(a: ProductData, b: ProductData, field: SortField)
    requires Keyed(a, field) && Keyed(b, field)
  {
    Compare(a, b, field) <= 0
  }

  predicate Lt(a: ProductData, b: ProductData, field: SortField)
    requires Keyed(a, field) && Keyed(b, field)
  {
    Compare(a, b, field) < 0
  }

  /** Two products whose sort keys are equal. */
  predicate SameKey(a: ProductData, b: ProductData, field: SortField) {
    match field
    case ByPrice => a.price == b.price
    case ByCategory => a.category == b.category
    case ByName => a.name == b.name
  }

  lemma CompareSwap(a: ProductData, b: ProductData, field: SortField)
    requires Keyed(a, field) && Keyed(b, field)
    ensures Compare(b, a, field) == -Compare(a, b, field)
  {
    match field
    case ByPrice =>
    case ByCategory =>
      if a.category.Some? && b.category.Some? {
        CompareToSwap(a.category.value, b.category.value);
      }
    case ByName =>
      if a.name.Some? && b.name.Some? {
        CompareToSwap(a.name.value, b.name.value);
      }
  }

  /** The comparator returns 0 exactly on equal keys. */
  lemma CompareZero(a: ProductData, b: ProductData, field: SortField)
    requires Keyed(a, field) && Keyed(b, field)
    ensures Compare(a, b, field) == 0 <==> SameKey(a, b, field)
  {
    match field
    case ByPrice =>
    case ByCategory =>
      if a.category.Some? && b.category.Some? {
        CompareToZero(a.category.value, b.category.value);
      }
    case ByName =>
      if a.name.Some? && b.name.Some? {
        CompareToZero(a.name.value, b.name.value);
      }
  }

  lemma NullsLastTransitive(x: Option<string>, y: Option<string>, z: Option<string>)
    requires CompareNullsLast(x, y) <= 0 && CompareNullsLast(y, z) <= 0
    ensures CompareNullsLast(x, z) <= 0
  {
    if x.Some? && y.Some? && z.Some? {
      CompareToTransitive(x.value, y.value, z.value);
    }
  }

  lemma CompareTransitive(a: ProductData, b: ProductData, c: ProductData, field: SortField)
    requires Keyed(a, field) && Keyed(b, field) && Keyed(c, field)
    requires Le(a, b, field) && Le(b, c, field)
    ensures Le(a, c, field)
  {
    match field
    case ByPrice =>
    case ByCategory => NullsLastTransitive(a.category, b.category, c.category);
    case ByName => NullsLastTransitive(a.name, b.name, c.name);
  }

  /** `a` may precede `b`: the comparator applies to both and does not put `b` first. */
  predicate InOrder(a: ProductData, b: ProductData, field: SortField) {
    Keyed(a, field) && Keyed(b, field) && Le(a, b, field)
  }

  /** Non-decreasing under the comparator: every earlier element is at most every later one. */
  ghost predicate Sorted(s: seq<ProductData>, field: SortField) {
    forall i, j | 0 <= i < j < |s| :: InOrder(s[i], s[j], field)
  }

  /** The elements of `s` whose key equals that of `k`, in their order in `s`. */
  function KeyFilter(s: seq<ProductData>, k: ProductData, field: SortField): seq<ProductData> {
    if s == [] then []
    else KeyFilter(s[..|s| - 1], k, field) + (if SameKey(s[|s| - 1], k, field) then [s[|s| - 1]] else [])
  }

  /** Stability: elements with equal keys appear in `output` in the order they had in `input`. */
  ghost predicate Stable(input: seq<ProductData>, output: seq<ProductData>, field: SortField) {
    forall k :: KeyFilter(output, k, field) == KeyFilter(input, k, field)
  }

  /**
   * Inserts `x` into `s` after every element that is not greater than `x`:
   * scanning from the right, `x` moves left only past strictly greater elements.
   */
  function Insert(s: seq<ProductData>, x: ProductData, field: SortField): (r: seq<ProductData>)
    requires AllKeyed(s, field) && Keyed(x, field)
    ensures forall p | p in r :: p == x || p in s
  {
    if s == [] then [x]
    else
      var init, last := s[..|s| - 1], s[|s| - 1];
      assert s == init + [last];
      if Lt(x, last, field) then Insert(init, x, field) + [last]
      else s + [x]
  }

  /** Stable insertion sort: the reference definition of the sorted listing. */
  function InsertionSort(s: seq<ProductData>, field: SortField): (r: seq<ProductData>)
    requires AllKeyed(s, field)
    ensures forall p | p in r :: p in s
  {
    if s == [] then []
    else
      var init, last := s[..|s| - 1], s[|s| - 1];
      assert s == init + [last];
      Insert(InsertionSort(init, field), last, field)
  }

  lemma {:induction false} InsertPermutes(s: seq<ProductData>, x: ProductData, field: SortField)
    requires AllKeyed(s, field) && Keyed(x, field)
    ensures multiset(Insert(s, x, field)) == multiset(s) + multiset{x}
  {
    if s != [] {
      var init, last := s[..|s| - 1], s[|s| - 1];
      assert s == init + [last];
      if Lt(x, last, field) {
        InsertPermutes(init, x, field);
      }
    }
  }

  lemma {:induction false} InsertionSortPermutes(s: seq<ProductData>, field: SortField)
    requires AllKeyed(s, field)
    ensures multiset(InsertionSort(s, field)) == multiset(s)
  {
    if s != [] {
      var init, last := s[..|s| - 1], s[|s| - 1];
      assert s == init + [last];
      InsertionSortPermutes(init, field);
      InsertPermutes(InsertionSort(init, field), last, field);
    }
  }

  /** Appending an element no smaller than every element keeps a sequence sorted. */
  lemma SortedSnoc(t: seq<ProductData>, y: ProductData, field: SortField)
    requires Sorted(t, field) && Keyed(y, field)
    requires forall e | e in t :: Keyed(e, field) && Le(e, y, field)
    ensures Sorted(t + [y], field)
  {
    var r := t + [y];
    forall i, j | 0 <= i < j < |r| ensures InOrder(r[i], r[j], field) {
      if j < |t| {
        assert r[i] == t[i] && r[j] == t[j];
      } else {
        assert r[i] == t[i] && t[i] in t;
      }
    }
  }

  lemma {:induction false} InsertSorted(s: seq<ProductData>, x: ProductData, field: SortField)
    requires AllKeyed(s, field) && Keyed(x, field) && Sorted(s, field)
    ensures Sorted(Insert(s, x, field), field)
  {
    if s != [] {
      var init, last := s[..|s| - 1], s[|s| - 1];
      assert s == init + [last];
      if Lt(x, last, field) {
        var t := Insert(init, x, field);
        assert Insert(s, x, field) == t + [last];
        assert Sorted(init, field) by {
          forall i, j | 0 <= i < j < |init| ensures InOrder(init[i], init[j], field) {
            assert init[i] == s[i] && init[j] == s[j];
          }
        }
        InsertSorted(init, x, field);
        forall e | e in t ensures Keyed(e, field) && Le(e, last, field) {
          if e != x {
            var k :| 0 <= k < |init| && init[k] == e;
            assert s[k] == e;
          }
        }
        SortedSnoc(t, last, field);
      } else {
        assert Insert(s, x, field) == s + [x];
        CompareSwap(x, last, field);
        forall e | e in s ensures Keyed(e, field) && Le(e, x, field) {
          var k :| 0 <= k < |s| && s[k] == e;
          if k < |s| - 1 {
            CompareTransitive(s[k], last, x, field);
          }
        }
        SortedSnoc(s, x, field);
      }
    }
  }

  lemma {:induction false} InsertionSortSorted(s: seq<ProductData>, field: SortField)
    requires AllKeyed(s, field)
    ensures Sorted(InsertionSort(s, field), field)
  {
    if s != [] {
      var init, last := s[..|s| - 1], s[|s| - 1];
      assert s == init + [last];
      InsertionSortSorted(init, field);
      InsertSorted(InsertionSort(init, field), last, field);
    }
  }

  lemma KeyFilterSnoc(s: seq<ProductData>, x: ProductData, k: ProductData, field: SortField)
    ensures KeyFilter(s + [x], k, field) == KeyFilter(s, k, field) + (if SameKey(x, k, field) then [x] else [])
  {
    assert (s + [x])[..|s|] == s;
  }

  /** Strictly ordered elements never share a key class. */
  lemma LtSeparatesKeys(a: ProductData, b: ProductData, k: ProductData, field: SortField)
    requires Keyed(a, field) && Keyed(b, field) && Lt(a, b, field)
    ensures !(SameKey(a, k, field) && SameKey(b, k, field))
  {
    CompareZero(a, b, field);
  }

  /** Appending `y` after a sequence that gained `x` commutes when `x` and `y` are not both in the class. */
  lemma KeyFilterSwap(init: seq<ProductData>, t: seq<ProductData>, x: ProductData, y: ProductData,
                      k: ProductData, field: SortField)
    requires KeyFilter(t, k, field) == KeyFilter(init, k, field) + (if SameKey(x, k, field) then [x] else [])
    requires !(SameKey(x, k, field) && SameKey(y, k, field))
    ensures KeyFilter(t + [y], k, field) == KeyFilter(init + [y], k, field) + (if SameKey(x, k, field) then [x] else [])
  {
    var xs := if SameKey(x, k, field) then [x] else [];
    var ys := if SameKey(y, k, field) then [y] else [];
    KeyFilterSnoc(t, y, k, field);
    KeyFilterSnoc(init, y, k, field);
    assert xs + ys == ys + xs;
    Associative(KeyFilter(init, k, field), xs, ys);
    Associative(KeyFilter(init, k, field), ys, xs);
  }

  /** Inserting `x` adds it to its key class after the members already there. */
  lemma {:induction false} InsertKeyFilter(s: seq<ProductData>, x: ProductData, k: ProductData, field: SortField)
    requires AllKeyed(s, field) && Keyed(x, field)
    ensures KeyFilter(Insert(s, x, field), k, field) == KeyFilter(s, k, field) + (if SameKey(x, k, field) then [x] else [])
  {
    if s == [] {
      KeyFilterSnoc([], x, k, field);
    } else {
      var init, last := s[..|s| - 1], s[|s| - 1];
      assert s == init + [last];
      if Lt(x, last, field) {
        InsertKeyFilter(init, x, k, field);
        LtSeparatesKeys(x, last, k, field);
        KeyFilterSwap(init, Insert(init, x, field), x, last, k, field);
      } else {
        KeyFilterSnoc(s, x, k, field);
      }
    }
  }

  lemma {:induction false} InsertionSortStable(s: seq<ProductData>, field: SortField, k: ProductData)
    requires AllKeyed(s, field)
    ensures KeyFilter(InsertionSort(s, field), k, field) == KeyFilter(s, k, field)
  {
    if s != [] {
      var init, last := s[..|s| - 1], s[|s| - 1];
      assert s == init + [last];
      InsertionSortStable(init, field, k);
      InsertKeyFilter(InsertionSort(init, field), last, k, field);
      KeyFilterSnoc(init, last, k, field);
    }
  }

  /** The reference sort is a sorted, stable permutation of its input. */
  lemma InsertionSortCorrect(s: seq<ProductData>, field: SortField)
    requires AllKeyed(s, field)
    ensures multiset(InsertionSort(s, field)) == multiset(s)
    ensures Sorted(InsertionSort(s, field), field)
    ensures Stable(s, InsertionSort(s, field), field)
  {
    InsertionSortPermutes(s, field);
    InsertionSortSorted(s, field);
    forall k ensures KeyFilter(InsertionSort(s, field), k, field) == KeyFilter(s, k, field) {
      InsertionSortStable(s, field, k);
    }
  }

  /** Under the price key, sorted means non-decreasing in price. */
  lemma SortedByPrice(s: seq<ProductData>)
    requires Sorted(s, ByPrice)
    ensures |s| >= 2 ==> forall i :: 0 <= i < |s| ==> s[i].price.Some?
    ensures forall i, j :: 0 <= i < j < |s| ==> s[i].price.value <= s[j].price.value
  {
    forall i | 0 <= i < |s| && |s| >= 2 ensures s[i].price.Some? {
      if i == 0 {
        assert InOrder(s[0], s[1], ByPrice);
      } else {
        assert InOrder(s[0], s[i], ByPrice);
      }
    }
    forall i, j | 0 <= i < j < |s| ensures s[i].price.value <= s[j].price.value {
      assert InOrder(s[i], s[j], ByPrice);
    }
  }

  /** The text field a non-price key sorts on. */
  function TextKey(p: ProductData, field: SortField): Option<string> {
    if field == ByCategory then p.category else p.name
  }

  /**
   * Under the category or name key, sorted means every null comes after every
   * non-null value and the non-null values are non-decreasing under compareTo.
   */
  lemma SortedNullsLast(s: seq<ProductData>, field: SortField)
    requires field != ByPrice && Sorted(s, field)
    ensures forall i, j :: 0 <= i < j < |s| && TextKey(s[i], field).None? ==> TextKey(s[j], field).None?
    ensures forall i, j :: 0 <= i < j < |s| && TextKey(s[i], field).Some? && TextKey(s[j], field).Some? ==>
      CompareTo(TextKey(s[i], field).value, TextKey(s[j], field).value) <= 0
  {
    forall i, j | 0 <= i < j < |s|
      ensures TextKey(s[i], field).None? ==> TextKey(s[j], field).None?
      ensures TextKey(s[i], field).Some? && TextKey(s[j], field).Some? ==>
        CompareTo(TextKey(s[i], field).value, TextKey(s[j], field).value) <= 0
    {
      assert InOrder(s[i], s[j], field);
    }
  }

  lemma SplitLast<T>(s: seq<T>, j: nat)
    requires j < |s|
    ensures s[..|s| - 1][..j] == s[..j]
    ensures s[..|s| - 1][j..] + [s[|s| - 1]] == s[j..]
  {
  }

  lemma Associative<T>(a: seq<T>, b: seq<T>, c: seq<T>)
    ensures a + b + c == a + (b + c)
  {
  }

  lemma Regroup<T>(a: seq<T>, x: T, b: seq<T>, y: T)
    ensures a + [x] + b + [y] == a + [x] + (b + [y])
  {
  }

  /** Where the inner loop of the array sort stops, inserting there is the reference insertion. */
  lemma {:induction false} InsertSplit(s: seq<ProductData>, x: ProductData, j: nat, field: SortField)
    requires AllKeyed(s, field) && Keyed(x, field) && j <= |s|
    requires forall k :: j <= k < |s| ==> Lt(x, s[k], field)
    requires j == 0 || !Lt(x, s[j - 1], field)
    ensures Insert(s, x, field) == s[..j] + [x] + s[j..]
    decreases |s|
  {
    if s == [] {
    } else if j == |s| {
      assert s[..j] == s && s[j..] == [];
    } else {
      var init, last := s[..|s| - 1], s[|s| - 1];
      assert s == init + [last];
      assert Lt(x, last, field);
      assert Insert(s, x, field) == Insert(init, x, field) + [last];
      assert forall k :: j <= k < |init| ==> init[k] == s[k];
      assert j > 0 ==> init[j - 1] == s[j - 1];
      InsertSplit(init, x, j, field);
      SplitLast(s, j);
      Regroup(init[..j], x, init[j..], last);
      assert Insert(s, x, field) == init[..j] + [x] + init[j..] + [last];
      assert Insert(s, x, field) == init[..j] + [x] + (init[j..] + [last]);
      assert Insert(s, x, field) == init[..j] + [x] + s[j..];
      assert Insert(s, x, field) == s[..j] + [x] + s[j..];
    }
  }

  /** Reassembles the array after the inner loop has opened a gap at `j` and filled it. */
  lemma Assemble<T>(arr: seq<T>, sorted: seq<T>, x: T, j: nat, i: nat)
    requires j <= i == |sorted| < |arr| && arr[j] == x
    requires forall k :: 0 <= k < j ==> arr[k] == sorted[k]
    requires forall k :: j < k <= i ==> arr[k] == sorted[k - 1]
    ensures arr[..i + 1] == sorted[..j] + [x] + sorted[j..]
  {
  }

  /** Sorting one more element of the input inserts it into the sorted prefix. */
  lemma InsertionSortSnoc(s: seq<ProductData>, i: nat, field: SortField)
    requires i < |s| && AllKeyed(s, field)
    ensures AllKeyed(s[..i], field) && AllKeyed(s[..i + 1], field)
    ensures AllKeyed(InsertionSort(s[..i], field), field) && Keyed(s[i], field)
    ensures InsertionSort(s[..i + 1], field) == Insert(InsertionSort(s[..i], field), s[i], field)
  {
    assert forall p | p in s[..i + 1] :: p in s;
    assert s[..i + 1][..i] == s[..i];
    SortKeepsKeyed(s[..i], field);
  }

  /** Sorting keeps every element, so it keeps every element comparable. */
  lemma SortKeepsKeyed(s: seq<ProductData>, field: SortField)
    requires AllKeyed(s, field)
    ensures AllKeyed(InsertionSort(s, field), field)
  {

  }

  /**
   * One step of the array sort: `a[i]` is moved left past the strictly greater
   * elements of the sorted prefix `a[..i]`.
   */
  method InsertIntoPrefix(a: array<ProductData>, i: nat, field: SortField)
    requires i < a.Length && AllKeyed(a[..i], field) && Keyed(a[i], field)
    modifies a
    ensures a[..i + 1] == Insert(old(a[..i]), old(a[i]), field)
    ensures forall k :: i < k < a.Length ==> a[k] == old(a[k])
  {
    ghost var sorted := a[..i];
    var x := a[i];
    var j := i;
    while j > 0 && Lt(x, a[j - 1], field)
      invariant 0 <= j <= i
      invariant forall k :: 0 <= k < j ==> a[k] == sorted[k]
      invariant forall k :: j < k <= i ==> a[k] == sorted[k - 1]
      invariant forall k :: i < k < a.Length ==> a[k] == old(a[k])
      invariant forall k :: j <= k < i ==> Lt(x, sorted[k], field)
    {
      a[j] := a[j - 1];
      j := j - 1;
    }
    a[j] := x;
    Assemble(a[..], sorted, x, j, i);
    InsertSplit(sorted, x, j, field);
  }

  /**
   * `List.sort` on the fetched list, as an in-place insertion sort on an array;
   * it computes the reference sort of the original contents.
   */
  method SortInPlace(a: array<ProductData>, field: SortField)
    requires AllKeyed(a[..], field)
    modifies a
    ensures a[..] == InsertionSort(old(a[..]), field)
  {
    ghost var s := a[..];
    var i := 0;
    while i < a.Length
      invariant 0 <= i <= a.Length
      invariant a[..i] == InsertionSort(s[..i], field)
      invariant forall k :: i <= k < a.Length ==> a[k] == s[k]
    {
      assert AllKeyed(s[..i], field) by {
        forall p | p in s[..i] ensures p in s { }
      }
      SortKeepsKeyed(s[..i], field);
      assert s[i] in s;
      InsertIntoPrefix(a, i, field);
      InsertionSortSnoc(s, i, field);
      i := i + 1;
    }
    assert s[..a.Length] == s;
  }
}
