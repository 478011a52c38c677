/** Sorting by a strict total order, and why what is sorted does not depend on the order it came in. */
module Ordering {
  import opened Sequences

  ghost predicate StrictOrder<T(!new)>(less: (T, T) -> bool) {
    && (forall x :: !less(x, x))
    && (forall x, y, z :: less(x, y) && less(y, z) ==> less(x, z))
    && (forall x, y :: x == y || less(x, y) || less(y, x))
  }

  ghost predicate Sorted<T>(less: (T, T) -> bool, s: seq<T>) {
    forall i, j :: 0 <= i < j < |s| ==> less(s[i], s[j])
  }

  predicate Distinct<T(==)>(s: seq<T>) {
    forall i, j :: 0 <= i < j < |s| ==> s[i] != s[j]
  }

  ghost predicate SameMembers<T(!new)>(a: seq<T>, b: seq<T>) {
    forall x :: x in a <==> x in b
  }

  function Insert<T>(less: (T, T) -> bool, x: T, s: seq<T>): seq<T> {
    if s == [] || less(x, s[0]) then [x] + s else [s[0]] + Insert(less, x, s[1..])
  }

  function Sort<T>(less: (T, T) -> bool, s: seq<T>): seq<T> {
    if s == [] then [] else Insert(less, s[0], Sort(less, s[1..]))
  }

  lemma {:induction false} InsertMembers<T(!new)>(less: (T, T) -> bool, x: T, s: seq<T>)
    ensures forall y :: y in Insert(less, x, s) <==> y == x || y in s
  {
    if !(s == [] || less(x, s[0])) {
      InsertMembers(less, x, s[1..]);
      HeadSplit(s);
      assert forall y :: y in s <==> y == s[0] || y in s[1..];
    }
  }

  lemma {:induction false} InsertSorts<T(!new)>(less: (T, T) -> bool, x: T, s: seq<T>)
    requires StrictOrder(less) && Sorted(less, s) && x !in s
    ensures Sorted(less, Insert(less, x, s))
  {
    if !(s == [] || less(x, s[0])) {
      var rest := Insert(less, x, s[1..]);
      InsertSorts(less, x, s[1..]);
      InsertMembers(less, x, s[1..]);
      forall y | y in rest ensures less(s[0], y) {
        if y != x {
          var i :| 0 <= i < |s[1..]| && s[1..][i] == y;
          assert s[i + 1] == y;
        }
      }
    }
  }

  lemma {:induction false} SortMembers<T(!new)>(less: (T, T) -> bool, s: seq<T>)
    ensures SameMembers(Sort(less, s), s)
  {
    if s != [] {
      SortMembers(less, s[1..]);
      InsertMembers(less, s[0], Sort(less, s[1..]));
      HeadSplit(s);
      assert forall y :: y in s <==> y == s[0] || y in s[1..];
    }
  }

  lemma {:induction false} SortSorts<T(!new)>(less: (T, T) -> bool, s: seq<T>)
    requires StrictOrder(less) && Distinct(s)
    ensures Sorted(less, Sort(less, s))
  {
    if s != [] {
      SortSorts(less, s[1..]);
      SortMembers(less, s[1..]);
      InsertSorts(less, s[0], Sort(less, s[1..]));
    }
  }

  lemma {:induction false} FirstIsLeast<T(!new)>(less: (T, T) -> bool, a: seq<T>, b: seq<T>)
    requires StrictOrder(less) && Sorted(less, a) && Sorted(less, b) && SameMembers(a, b) && a != [] && b != []
    ensures a[0] == b[0]
  {
    assert a[0] in b && b[0] in a;
  }

  lemma {:induction false} SortedIsUnique<T(!new)>(less: (T, T) -> bool, a: seq<T>, b: seq<T>)
    requires StrictOrder(less) && Sorted(less, a) && Sorted(less, b) && SameMembers(a, b)
    ensures a == b
  {
    if b != [] {
      assert b[0] in a;
    }
    if a != [] {
      assert a[0] in b;
      FirstIsLeast(less, a, b);
      forall x ensures x in a[1..] <==> x in b[1..] {
        TailMembers(less, a, x);
        TailMembers(less, b, x);
      }
      SortedIsUnique(less, a[1..], b[1..]);
      HeadSplit(a);
      HeadSplit(b);
    }
  }

  lemma {:induction false} TailMembers<T(!new)>(less: (T, T) -> bool, s: seq<T>, x: T)
    requires StrictOrder(less) && Sorted(less, s) && s != []
    ensures x in s[1..] <==> x in s && x != s[0]
  {
    if x in s[1..] {
      var i :| 0 <= i < |s[1..]| && s[1..][i] == x;
      assert s[i + 1] == x && less(s[0], s[i + 1]);
    }
    if x in s && x != s[0] {
      var i :| 0 <= i < |s| && s[i] == x;
      assert s[1..][i - 1] == x;
    }
  }

  /** However a collection was listed, its sorted listing is the same. */
  lemma {:induction false} SortIsOrderFree<T(!new)>(less: (T, T) -> bool, a: seq<T>, b: seq<T>)
    requires StrictOrder(less) && Distinct(a) && Distinct(b) && SameMembers(a, b)
    ensures Sort(less, a) == Sort(less, b)
  {
    SortSorts(less, a);
    SortSorts(less, b);
    SortMembers(less, a);
    SortMembers(less, b);
    SortedIsUnique(less, Sort(less, a), Sort(less, b));
  }

  // --------------------------------------------------------- dictionary order

  /** Dictionary order over an order of the elements. */
  predicate Before<T(==)>(less: (T, T) -> bool, a: seq<T>, b: seq<T>) {
    b != [] && (a == [] || less(a[0], b[0]) || (a[0] == b[0] && Before(less, a[1..], b[1..])))
  }

  lemma {:induction false} BeforeIrreflexive<T(!new)>(less: (T, T) -> bool, a: seq<T>)
    requires StrictOrder(less)
    ensures !Before(less, a, a)
  {
    if a != [] { BeforeIrreflexive(less, a[1..]); }
  }

  lemma {:induction false} BeforeTransitive<T(!new)>(less: (T, T) -> bool, a: seq<T>, b: seq<T>, c: seq<T>)
    requires StrictOrder(less) && Before(less, a, b) && Before(less, b, c)
    ensures Before(less, a, c)
  {
    if a != [] && a[0] == b[0] == c[0] && Before(less, a[1..], b[1..]) && Before(less, b[1..], c[1..]) {
      BeforeTransitive(less, a[1..], b[1..], c[1..]);
    }
  }

  lemma {:induction false} BeforeTotal<T(!new)>(less: (T, T) -> bool, a: seq<T>, b: seq<T>)
    requires StrictOrder(less)
    ensures a == b || Before(less, a, b) || Before(less, b, a)
  {
    if a != [] && b != [] && a[0] == b[0] {
      BeforeTotal(less, a[1..], b[1..]);
      HeadSplit(a);
      HeadSplit(b);
    }
  }

  lemma {:induction false} BeforeIsStrict<T(!new)>(less: (T, T) -> bool, dictionary: (seq<T>, seq<T>) -> bool)
    requires StrictOrder(less) && forall a, b :: dictionary(a, b) == Before(less, a, b)
    ensures StrictOrder(dictionary)
  {
    forall a ensures !dictionary(a, a) { BeforeIrreflexive(less, a); }
    forall a, b, c | dictionary(a, b) && dictionary(b, c) ensures dictionary(a, c) { BeforeTransitive(less, a, b, c); }
    forall a, b ensures a == b || dictionary(a, b) || dictionary(b, a) { BeforeTotal(less, a, b); }
  }

  const CHARS: (char, char) -> bool := (x: char, y: char) => x < y

  /** The order of strings, by their characters. */
  predicate TextBefore(a: string, b: string) {
    Before(CHARS, a, b)
  }

  const TEXTS: (string, string) -> bool := (a: string, b: string) => TextBefore(a, b)

  lemma {:induction false} TextsOrdered()
    ensures StrictOrder(TEXTS)
  {
    assert StrictOrder(CHARS);
    BeforeIsStrict(CHARS, TEXTS);
  }
}
