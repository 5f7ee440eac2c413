/**
 * Three-way comparison, the lexicographic order Rust uses for `str` and for
 * slices, the stable sort behind `sort()`/`sorted()`, and the ascending key
 * enumeration of a `BTreeMap` or of a sorted `HashMap` key set.
 */
module Orders {

  /** Rust's `std::cmp::Ordering`. */
  datatype Ordering = Less | Equal | Greater {
    function Reverse(): Ordering {
      match this
      case Less => Greater
      case Equal => Equal
      case Greater => Less
    }
  }

  /** `cmp` is a total order: Equal exactly on equal arguments, antisymmetric and transitive. */
  ghost predicate TotalOrder<T(!new)>(cmp: (T, T) -> Ordering) {
    && (forall a, b :: cmp(a, b) == Equal <==> a == b)
    && (forall a, b :: cmp(b, a) == cmp(a, b).Reverse())
    && (forall a, b, c :: cmp(a, b) == Less && cmp(b, c) == Less ==> cmp(a, c) == Less)
  }

  /** `cmp` is a total preorder: elements may tie without being equal (pairs compared by path only). */
  ghost predicate TotalPreorder<T(!new)>(cmp: (T, T) -> Ordering) {
    && (forall a, b :: cmp(b, a) == cmp(a, b).Reverse())
    && (forall a, b, c :: cmp(a, b) != Greater && cmp(b, c) != Greater ==> cmp(a, c) != Greater)
  }

  lemma TotalOrderIsPreorder<T(!new)>(cmp: (T, T) -> Ordering)
    requires TotalOrder(cmp)
    ensures TotalPreorder(cmp)
  {
    forall a, b, c | cmp(a, b) != Greater && cmp(b, c) != Greater
      ensures cmp(a, c) != Greater
    {
      if cmp(a, b) == Equal {
        assert a == b;
      } else if cmp(b, c) == Equal {
        assert b == c;
      }
    }
  }

  /** Code-point order on characters; on UTF-8 text it coincides with Rust's byte-wise `str` order. */
  function CharCmp(a: char, b: char): Ordering {
    if a < b then Less else if a == b then Equal else Greater
  }

  /**
   * Lexicographic comparison: the first position where the sequences differ
   * decides; a strict prefix sorts before the longer sequence.
   */
  function LexCmp<T>(a: seq<T>, b: seq<T>, cmp: (T, T) -> Ordering): Ordering
    decreases |a|
  {
    if a == [] then (if b == [] then Equal else Less)
    else if b == [] then Greater
    else if cmp(a[0], b[0]) != Equal then cmp(a[0], b[0])
    else LexCmp(a[1..], b[1..], cmp)
  }

  lemma {:induction false} LexEqual<T(!new)>(a: seq<T>, b: seq<T>, cmp: (T, T) -> Ordering)
    requires TotalOrder(cmp)
    ensures LexCmp(a, b, cmp) == Equal <==> a == b
    decreases |a|
  {
    if a != [] && b != [] && cmp(a[0], b[0]) == Equal {
      LexEqual(a[1..], b[1..], cmp);
      if a[1..] == b[1..] {
        assert a == [a[0]] + a[1..] && b == [b[0]] + b[1..];
      }
    }
  }

  lemma {:induction false} LexReverse<T(!new)>(a: seq<T>, b: seq<T>, cmp: (T, T) -> Ordering)
    requires TotalOrder(cmp)
    ensures LexCmp(b, a, cmp) == LexCmp(a, b, cmp).Reverse()
    decreases |a|
  {
    if a != [] && b != [] && cmp(a[0], b[0]) == Equal {
      LexReverse(a[1..], b[1..], cmp);
    }
  }

  lemma {:induction false} LexTransitive<T(!new)>(a: seq<T>, b: seq<T>, c: seq<T>, cmp: (T, T) -> Ordering)
    requires TotalOrder(cmp)
    requires LexCmp(a, b, cmp) == Less && LexCmp(b, c, cmp) == Less
    ensures LexCmp(a, c, cmp) == Less
    decreases |a|
  {
    if a != [] && c != [] {
      var x, y, z := a[0], b[0], c[0];
      if cmp(x, y) == Equal && cmp(y, z) == Equal {
        assert x == y && y == z;
        LexTransitive(a[1..], b[1..], c[1..], cmp);
      } else if cmp(x, y) == Equal {
        assert x == y;
      } else if cmp(y, z) == Equal {
        assert y == z;
      }
    }
  }

  /** The order Rust's `String`/`str` implements. */
  function StrCmp(a: string, b: string): Ordering {
    LexCmp(a, b, CharCmp)
  }

  /** Two strings compare Equal exactly when they are the same string. */
  lemma StrCmpEqual(a: string, b: string)
    ensures StrCmp(a, b) == Equal <==> a == b
  {
    CharCmpTotal();
    LexEqual(a, b, CharCmp);
  }

  lemma CharCmpTotal()
    ensures TotalOrder(CharCmp)
  {
  }

  lemma StrCmpTotal()
    ensures TotalOrder(StrCmp)
  {
    CharCmpTotal();
    forall a: string, b: string ensures StrCmp(a, b) == Equal <==> a == b {
      LexEqual(a, b, CharCmp);
    }
    forall a: string, b: string ensures StrCmp(b, a) == StrCmp(a, b).Reverse() {
      LexReverse(a, b, CharCmp);
    }
    forall a: string, b: string, c: string | StrCmp(a, b) == Less && StrCmp(b, c) == Less
      ensures StrCmp(a, c) == Less
    {
      LexTransitive(a, b, c, CharCmp);
    }
  }

  // ---------------------------------------------------------------------
  // Stable sort (`slice::sort`, itertools `sorted`)
  // ---------------------------------------------------------------------

  ghost predicate SortedBy<T>(s: seq<T>, cmp: (T, T) -> Ordering) {
    forall i, j :: 0 <= i < j < |s| ==> cmp(s[i], s[j]) != Greater
  }

  /** Puts `x` in front of the first element it does not sort after. */
  function Insert<T>(x: T, s: seq<T>, cmp: (T, T) -> Ordering): (r: seq<T>)
    ensures multiset(r) == multiset(s) + multiset{x}
  {
    if s == [] then [x]
    else if cmp(x, s[0]) == Greater then
      assert s == [s[0]] + s[1..];
      [s[0]] + Insert(x, s[1..], cmp)
    else [x] + s
  }

  /** Insertion sort from the back: stable, like Rust's merge sort. */
  function SortBy<T>(s: seq<T>, cmp: (T, T) -> Ordering): (r: seq<T>)
    ensures multiset(r) == multiset(s)
  {
    if s == [] then []
    else
      assert s == [s[0]] + s[1..];
      Insert(s[0], SortBy(s[1..], cmp), cmp)
  }

  /** A sorted sequence stays sorted behind an element that sorts before all of it. */
  lemma ConsSorted<T>(a: T, t: seq<T>, cmp: (T, T) -> Ordering)
    requires SortedBy(t, cmp)
    requires forall j :: 0 <= j < |t| ==> cmp(a, t[j]) != Greater
    ensures SortedBy([a] + t, cmp)
  {
    var r := [a] + t;
    forall i, j | 0 <= i < j < |r| ensures cmp(r[i], r[j]) != Greater {
      assert r[j] == t[j - 1];
      if i > 0 {
        assert r[i] == t[i - 1];
      }
    }
  }

  lemma {:induction false} InsertSorted<T(!new)>(x: T, s: seq<T>, cmp: (T, T) -> Ordering)
    requires TotalPreorder(cmp) && SortedBy(s, cmp)
    ensures SortedBy(Insert(x, s, cmp), cmp)
  {
    if s == [] {
    } else if cmp(x, s[0]) == Greater {
      var t := Insert(x, s[1..], cmp);
      assert SortedBy(t, cmp) by {
        InsertSorted(x, s[1..], cmp);
      }
      forall j | 0 <= j < |t| ensures cmp(s[0], t[j]) != Greater {
        assert t[j] in multiset(s[1..]) + multiset{x};
        if t[j] != x {
          assert t[j] in s[1..];
        } else {
          assert cmp(s[0], x) == Less;
        }
      }
      ConsSorted(s[0], t, cmp);
    } else {
      forall j | 0 <= j < |s| ensures cmp(x, s[j]) != Greater {
        if j > 0 {
          assert cmp(s[0], s[j]) != Greater;
        }
      }
      ConsSorted(x, s, cmp);
    }
  }

  lemma {:induction false} SortBySorted<T(!new)>(s: seq<T>, cmp: (T, T) -> Ordering)
    requires TotalPreorder(cmp)
    ensures SortedBy(SortBy(s, cmp), cmp)
  {
    if s != [] {
      SortBySorted(s[1..], cmp);
      InsertSorted(s[0], SortBy(s[1..], cmp), cmp);
    }
  }

  /** Every two elements strictly ascend: no two tie. */
  ghost predicate StrictlySortedBy<T>(s: seq<T>, cmp: (T, T) -> Ordering) {
    forall i, j :: 0 <= i < j < |s| ==> cmp(s[i], s[j]) == Less
  }

  /**
   * Under any comparison that reverses when its arguments are swapped, two
   * strictly ascending arrangements of the same elements are one sequence:
   * a sort that leaves no ties has only one possible outcome.
   */
  lemma {:induction false} StrictlySortedUnique<T(!new)>(a: seq<T>, b: seq<T>, cmp: (T, T) -> Ordering)
    requires forall x, y :: cmp(y, x) == cmp(x, y).Reverse()
    requires multiset(a) == multiset(b)
    requires StrictlySortedBy(a, cmp) && StrictlySortedBy(b, cmp)
    ensures a == b
    decreases |a|
  {
    assert |a| == |multiset(a)| == |multiset(b)| == |b|;
    if a != [] {
      assert a[0] == b[0] by {
        assert a[0] in multiset(b);
        var k :| 0 <= k < |b| && b[k] == a[0];
        assert b[0] in multiset(a);
        var m :| 0 <= m < |a| && a[m] == b[0];
        if k != 0 {
          assert false;
        }
      }
      SameTails(a, b);
      StrictlySortedUnique(a[1..], b[1..], cmp);
      assert a == [a[0]] + a[1..] && b == [b[0]] + b[1..];
    }
  }

  /** Two sequences holding the same elements and starting alike hold the same elements after the head. */
  lemma SameTails<T>(a: seq<T>, b: seq<T>)
    requires a != [] && b != [] && a[0] == b[0]
    requires multiset(a) == multiset(b)
    ensures multiset(a[1..]) == multiset(b[1..])
  {
    assert a == [a[0]] + a[1..] && b == [b[0]] + b[1..];
    assert multiset(a) == multiset{a[0]} + multiset(a[1..]);
    assert multiset(b) == multiset{b[0]} + multiset(b[1..]);
    assert multiset(a[1..]) == multiset(a) - multiset{a[0]};
    assert multiset(b[1..]) == multiset(b) - multiset{b[0]};
  }

  // ---------------------------------------------------------------------
  // Ascending enumeration of a set of strings
  // ---------------------------------------------------------------------

  predicate IsLeast(m: string, keys: set<string>) {
    m in keys && forall y :: y in keys ==> StrCmp(m, y) != Greater
  }

  lemma {:induction false} LeastExists(keys: set<string>)
    requires keys != {}
    ensures exists m :: IsLeast(m, keys)
    decreases |keys|
  {
    StrCmpTotal();
    var x :| x in keys;
    if keys - {x} == {} {
      assert keys == {x};
      assert IsLeast(x, keys);
    } else {
      LeastExists(keys - {x});
      var m :| IsLeast(m, keys - {x});
      if StrCmp(m, x) != Greater {
        assert IsLeast(m, keys);
      } else {
        assert IsLeast(x, keys);
      }
    }
  }

  lemma LeastUnique(m1: string, m2: string, keys: set<string>)
    requires IsLeast(m1, keys) && IsLeast(m2, keys)
    ensures m1 == m2
  {
    StrCmpTotal();
    assert StrCmp(m2, m1) == StrCmp(m1, m2).Reverse();
  }

  /**
   * The keys in ascending order: what `BTreeMap::iter` visits and what
   * `HashMap::keys().sorted()` yields.
   */
  ghost function Ascending(keys: set<string>): (r: seq<string>)
    ensures |r| == |keys|
    ensures forall k :: k in r <==> k in keys
    decreases |keys|
  {
    if keys == {} then []
    else
      LeastExists(keys);
      var m :| IsLeast(m, keys);
      [m] + Ascending(keys - {m})
  }

  lemma {:induction false} AscendingStrictlySorted(keys: set<string>)
    ensures forall i, j :: 0 <= i < j < |Ascending(keys)| ==> StrCmp(Ascending(keys)[i], Ascending(keys)[j]) == Less
    decreases |keys|
  {
    if keys != {} {
      LeastExists(keys);
      var m :| IsLeast(m, keys);
      AscendingHead(keys, m);
      AscendingStrictlySorted(keys - {m});
      LeadsStrictly(m, Ascending(keys - {m}), keys);
    }
  }

  /** A least key in front of strictly ascending other keys keeps them strictly ascending. */
  lemma LeadsStrictly(m: string, rest: seq<string>, keys: set<string>)
    requires IsLeast(m, keys)
    requires forall y :: y in rest ==> y in keys && y != m
    requires forall i, j :: 0 <= i < j < |rest| ==> StrCmp(rest[i], rest[j]) == Less
    ensures forall i, j :: 0 <= i < j < |[m] + rest| ==> StrCmp(([m] + rest)[i], ([m] + rest)[j]) == Less
  {
    var r := [m] + rest;
    forall i, j | 0 <= i < j < |r| ensures StrCmp(r[i], r[j]) == Less {
      if i == 0 {
        assert rest[j - 1] in rest;
        LeastBelow(m, rest[j - 1], keys);
      } else {
        assert r[i] == rest[i - 1] && r[j] == rest[j - 1];
      }
    }
  }

  lemma LeastBelow(m: string, y: string, keys: set<string>)
    requires IsLeast(m, keys) && y in keys && y != m
    ensures StrCmp(m, y) == Less
  {
    StrCmpTotal();
  }

  lemma AscendingHead(keys: set<string>, m: string)
    requires IsLeast(m, keys)
    ensures Ascending(keys) == [m] + Ascending(keys - {m})
  {
    LeastExists(keys);
    var m' :| IsLeast(m', keys) && Ascending(keys) == [m'] + Ascending(keys - {m'});
    LeastUnique(m, m', keys);
  }

  /** Enumerates `keys` in ascending order by repeatedly taking the least remaining key. */
  lemma AscendingStep(r: seq<string>, rest: set<string>, keys: set<string>, m: string)
    requires r + Ascending(rest) == Ascending(keys) && IsLeast(m, rest)
    ensures (r + [m]) + Ascending(rest - {m}) == Ascending(keys)
  {
    AscendingHead(rest, m);
    assert (r + [m]) + Ascending(rest - {m}) == r + ([m] + Ascending(rest - {m}));
  }

  method SortKeys(keys: set<string>) returns (r: seq<string>)
    ensures r == Ascending(keys)
  {
    r := [];
    var rest := keys;
    while rest != {}
      invariant r + Ascending(rest) == Ascending(keys)
      decreases |rest|
    {
      LeastExists(rest);
      var m :| IsLeast(m, rest);
      AscendingStep(r, rest, keys, m);
      r := r + [m];
      rest := rest - {m};
    }
  }
}
