/**
 * The ordering of bin/fetch_scholar.py: every collected entry is a triple
 * `(year or "0000", bibtex, key)`, sorted with Python's stable `list.sort`
 * on `-int(year)`, or on 0 when `int` refuses the year. Newer years come
 * first; unparseable years share key 0 with year 0.
 *
 * As CPython does for `sort(key=...)`, the key of each entry is computed
 * once (`Decorate`), the decorated list is sorted stably on the keys
 * alone, and the entries are read back (`Undecorate`).
 */
module YearSort {
  import opened Wrappers
  import opened Text

  /** One element of `bib_entries`. */
  datatype Entry = Entry(year: string, bibtex: string, key: string)

  /** `_sort_key`: the negated year, or 0 when `int(year)` raises. */
  function SortKey(e: Entry): int {
    match ParseInt(e.year)
    case Some(n) => -n
    case None => 0
  }

  /** An entry paired with its precomputed sort key. */
  datatype Keyed = Keyed(key: int, entry: Entry)

  predicate WellKeyed(t: seq<Keyed>) {
    forall i :: 0 <= i < |t| ==> t[i].key == SortKey(t[i].entry)
  }

  function Decorate(s: seq<Entry>): (t: seq<Keyed>)
    ensures |t| == |s| && WellKeyed(t)
    ensures forall i :: 0 <= i < |s| ==> t[i].entry == s[i]
  {
    seq(|s|, i requires 0 <= i < |s| => Keyed(SortKey(s[i]), s[i]))
  }

  function Undecorate(t: seq<Keyed>): (s: seq<Entry>)
    ensures |s| == |t| && forall i :: 0 <= i < |t| ==> s[i] == t[i].entry
  {
    seq(|t|, i requires 0 <= i < |t| => t[i].entry)
  }

  predicate KeysSorted(t: seq<Keyed>) {
    forall i, j :: 0 <= i < j < |t| ==> t[i].key <= t[j].key
  }

  /** Places `x` after every element of `t` whose key is at most its own. */
  function Insert(x: Keyed, t: seq<Keyed>): (r: seq<Keyed>)
    ensures |r| == |t| + 1
  {
    if t == [] then [x]
    else if x.key < t[0].key then [x] + t
    else [t[0]] + Insert(x, t[1..])
  }

  /** Inserting into a sorted sequence keeps it sorted. */
  lemma {:induction false} InsertSorted(x: Keyed, t: seq<Keyed>)
    requires KeysSorted(t)
    ensures KeysSorted(Insert(x, t))
    ensures Insert(x, t)[0] == x || (t != [] && Insert(x, t)[0] == t[0])
    decreases |t|
  {
    if t != [] && x.key >= t[0].key {
      var rest := Insert(x, t[1..]);
      InsertSorted(x, t[1..]);
      assert rest[0] == x || rest[0] == t[1];
      assert forall j :: 0 <= j < |rest| ==> t[0].key <= rest[j].key;
      assert Insert(x, t) == [t[0]] + rest;
    }
  }

  /** Inserting adds `x` and nothing else. */
  lemma {:induction false} InsertPermutes(x: Keyed, t: seq<Keyed>)
    ensures multiset(Insert(x, t)) == multiset(t) + multiset{x}
    decreases |t|
  {
    if t != [] && x.key >= t[0].key {
      InsertPermutes(x, t[1..]);
      assert t == [t[0]] + t[1..];
    }
  }

  /** The stable insertion sort on keys. */
  function SortKeyed(t: seq<Keyed>): (r: seq<Keyed>)
    ensures |r| == |t|
  {
    if t == [] then []
    else Insert(t[|t| - 1], SortKeyed(t[..|t| - 1]))
  }

  /** The sort on keys sorts and only reorders. */
  lemma {:induction false} SortKeyedSortsAndPermutes(t: seq<Keyed>)
    ensures KeysSorted(SortKeyed(t))
    ensures multiset(SortKeyed(t)) == multiset(t)
    decreases |t|
  {
    if t != [] {
      var init, last := t[..|t| - 1], t[|t| - 1];
      SortKeyedSortsAndPermutes(init);
      InsertSorted(last, SortKeyed(init));
      InsertPermutes(last, SortKeyed(init));
      assert t == init + [last];
    }
  }

  /** `bib_entries.sort(key=_sort_key)` */
  function SortByYear(s: seq<Entry>): seq<Entry> {
    Undecorate(SortKeyed(Decorate(s)))
  }

  predicate Sorted(s: seq<Entry>) {
    forall i, j :: 0 <= i < j < |s| ==> SortKey(s[i]) <= SortKey(s[j])
  }

  /** A permutation of a well-keyed sequence is well keyed. */
  lemma WellKeyedPermutation(t: seq<Keyed>, u: seq<Keyed>)
    requires WellKeyed(t) && multiset(u) == multiset(t)
    ensures WellKeyed(u)
  {
    forall i | 0 <= i < |u| ensures u[i].key == SortKey(u[i].entry) {
      assert u[i] in multiset(u);
      assert u[i] in t;
    }
  }

  lemma UndecorateConcat(a: seq<Keyed>, b: seq<Keyed>)
    ensures Undecorate(a + b) == Undecorate(a) + Undecorate(b)
  {
  }

  lemma {:induction false} UndecorateInsert(x: Keyed, t: seq<Keyed>)
    ensures multiset(Undecorate(Insert(x, t))) == multiset(Undecorate(t)) + multiset{x.entry}
    decreases |t|
  {
    if t == [] {
      assert Undecorate([x]) == [x.entry];
    } else if x.key < t[0].key {
      assert Insert(x, t) == [x] + t;
      UndecorateConcat([x], t);
      assert Undecorate([x]) == [x.entry];
    } else {
      var head, tail := [t[0]], t[1..];
      var rest := Insert(x, tail);
      assert Insert(x, t) == head + rest;
      assert t == head + tail;
      UndecorateInsert(x, tail);
      UndecorateConcat(head, rest);
      UndecorateConcat(head, tail);
      var h := multiset(Undecorate(head));
      assert multiset(Undecorate(Insert(x, t))) == h + multiset(Undecorate(rest));
      assert multiset(Undecorate(t)) == h + multiset(Undecorate(tail));
    }
  }

  lemma {:induction false} UndecorateSortKeyed(t: seq<Keyed>)
    ensures multiset(Undecorate(SortKeyed(t))) == multiset(Undecorate(t))
    decreases |t|
  {
    if t != [] {
      var init, last := t[..|t| - 1], t[|t| - 1];
      assert t == init + [last];
      UndecorateConcat(init, [last]);
      UndecorateSortKeyed(init);
      UndecorateInsert(last, SortKeyed(init));
    }
  }

  /** The sort puts newer years first and only reorders the entries. */
  lemma SortByYearSortsAndPermutes(s: seq<Entry>)
    ensures Sorted(SortByYear(s))
    ensures multiset(SortByYear(s)) == multiset(s)
    ensures |SortByYear(s)| == |s|
  {
    var d := Decorate(s);
    var r := SortKeyed(d);
    SortKeyedSortsAndPermutes(d);
    WellKeyedPermutation(d, r);
    UndecorateSortKeyed(d);
    assert Undecorate(d) == s;
  }

  /** The elements of `t` with key `k`, in their order in `t`. */
  function WithKey(t: seq<Keyed>, k: int): seq<Keyed> {
    if t == [] then []
    else (if t[0].key == k then [t[0]] else []) + WithKey(t[1..], k)
  }

  /** The entries of `s` whose sort key is `k`, in their order in `s`. */
  function WithSortKey(s: seq<Entry>, k: int): seq<Entry> {
    if s == [] then []
    else (if SortKey(s[0]) == k then [s[0]] else []) + WithSortKey(s[1..], k)
  }

  lemma {:induction false} WithKeyAppend(a: seq<Keyed>, b: seq<Keyed>, k: int)
    ensures WithKey(a + b, k) == WithKey(a, k) + WithKey(b, k)
    decreases |a|
  {
    if a == [] {
      assert a + b == b;
    } else {
      WithKeyAppend(a[1..], b, k);
      assert (a + b)[0] == a[0];
      assert (a + b)[1..] == a[1..] + b;
    }
  }

  /** A sorted sequence whose first key exceeds `k` has no element with key `k`. */
  lemma {:induction false} WithKeyAbove(t: seq<Keyed>, k: int)
    requires KeysSorted(t) && t != [] && t[0].key > k
    ensures WithKey(t, k) == []
    decreases |t|
  {
    if |t| > 1 {
      WithKeyAbove(t[1..], k);
    }
  }

  lemma {:induction false} InsertWithKey(x: Keyed, t: seq<Keyed>, k: int)
    requires KeysSorted(t)
    ensures WithKey(Insert(x, t), k) == WithKey(t, k) + (if x.key == k then [x] else [])
    decreases |t|
  {
    if t == [] {
    } else if x.key < t[0].key {
      assert ([x] + t)[1..] == t;
      if x.key == k {
        WithKeyAbove(t, k);
      }
    } else {
      var rest := Insert(x, t[1..]);
      assert Insert(x, t) == [t[0]] + rest;
      InsertWithKey(x, t[1..], k);
      assert ([t[0]] + rest)[1..] == rest;
    }
  }

  lemma {:induction false} SortKeyedIsStable(t: seq<Keyed>, k: int)
    ensures WithKey(SortKeyed(t), k) == WithKey(t, k)
    decreases |t|
  {
    if t != [] {
      var init, last := t[..|t| - 1], t[|t| - 1];
      assert t == init + [last];
      WithKeyAppend(init, [last], k);
      SortKeyedIsStable(init, k);
      SortKeyedSortsAndPermutes(init);
      InsertWithKey(last, SortKeyed(init), k);
      assert WithKey([last], k) == (if last.key == k then [last] else []) by {
        assert [last][1..] == [];
      }
    }
  }

  lemma {:induction false} UndecorateWithKey(t: seq<Keyed>, k: int)
    requires WellKeyed(t)
    ensures Undecorate(WithKey(t, k)) == WithSortKey(Undecorate(t), k)
    decreases |t|
  {
    if t != [] {
      UndecorateWithKey(t[1..], k);
      var u := Undecorate(t);
      assert u[1..] == Undecorate(t[1..]);
      assert SortKey(u[0]) == t[0].key;
      var head := if t[0].key == k then [t[0]] else [];
      assert Undecorate(head) == if SortKey(u[0]) == k then [u[0]] else [];
      UndecorateConcat(head, WithKey(t[1..], k));
    }
  }

  /** Stability: entries with equal sort keys keep their relative order. */
  lemma SortByYearIsStable(s: seq<Entry>, k: int)
    ensures WithSortKey(SortByYear(s), k) == WithSortKey(s, k)
  {
    var d := Decorate(s);
    var r := SortKeyed(d);
    SortKeyedSortsAndPermutes(d);
    WellKeyedPermutation(d, r);
    SortKeyedIsStable(d, k);
    UndecorateWithKey(r, k);
    UndecorateWithKey(d, k);
    assert Undecorate(d) == s;
  }

  /** Among entries whose years parse, newer years come first. */
  lemma NewerYearsFirst(s: seq<Entry>, i: nat, j: nat, yi: int, yj: int)
    requires i < j < |SortByYear(s)|
    requires ParseInt(SortByYear(s)[i].year) == Some(yi)
    requires ParseInt(SortByYear(s)[j].year) == Some(yj)
    ensures yi >= yj
  {
    SortByYearSortsAndPermutes(s);
    var r := SortByYear(s);
    assert SortKey(r[i]) <= SortKey(r[j]);
  }

  /** An entry with a positive year comes before every entry sorted as
   *  unknown: a year that does not parse, or one worth 0 such as the
   *  placeholder `"0000"`. */
  lemma KnownYearsBeforeUnknown(s: seq<Entry>, i: nat, j: nat, y: int)
    requires i < |SortByYear(s)| && j < |SortByYear(s)|
    requires ParseInt(SortByYear(s)[i].year) == Some(y) && y > 0
    requires SortKey(SortByYear(s)[j]) == 0
    ensures i < j
  {
    SortByYearSortsAndPermutes(s);
    var r := SortByYear(s);
    assert SortKey(r[i]) == -y;
    assert i != j;
  }

  /** A year written in decimal sorts by its negation. */
  lemma SortKeyOfYear(e: Entry, y: nat)
    requires e.year == NatToString(y)
    ensures SortKey(e) == -(y as int)
  {
    ParseIntOfNatToString(y);
  }

  /** A year of zeros only, such as the placeholder `"0000"` of an entry
   *  without a year, sorts together with years that do not parse. */
  lemma PlaceholderYearSortsAsUnknown(e: Entry)
    requires e.year != [] && forall i :: 0 <= i < |e.year| ==> e.year[i] == '0'
    ensures SortKey(e) == 0
  {
    ParseIntDigits(e.year);
    DigitsValueOfZeros(e.year);
  }
}
