/**
 * `StringValuePathPair`: a flattened locale string and the key path leading
 * to it, with the equality and ordering plabayo-news-builder gives it.
 * Both compare paths only; the value string plays no part.
 */
module Pairs {
  import opened Orders

  type Path = seq<string>

  datatype Pair = Pair(value: string, path: Path)

  /** `PartialEq::eq`: same length, then segment by segment; stops at the first difference. */
  method Eq(self: Pair, other: Pair) returns (r: bool)
    ensures r <==> self.path == other.path
  {
    if |self.path| != |other.path| {
      return false;
    }
    var i := 0;
    while i < |self.path|
      invariant 0 <= i <= |self.path|
      invariant self.path[..i] == other.path[..i]
    {
      if self.path[i] != other.path[i] {
        return false;
      }
      i := i + 1;
    }
    assert self.path == self.path[..i] && other.path == other.path[..i];
    return true;
  }

  /**
   * What `Ord::cmp` computes from index `i` on, given that the paths agree
   * before `i`. The Rust loop indexes `other.path[i]` for every index of
   * `self.path`, so it panics when `other`'s path is a strict prefix of
   * `self`'s; that case is excluded here. Its `i >= other.path.len()` guard
   * comes after that index and can never fire.
   */
  function LoopCmp(a: Path, b: Path, i: nat): Ordering
    requires i <= |a| && i <= |b| && a[..i] == b[..i]
    requires !(b < a)
    decreases |a| - i
  {
    if i == |a| then Equal
    else
      assert i < |b|;
      var c := StrCmp(a[i], b[i]);
      if c != Equal then c
      else
        assert a[..i + 1] == a[..i] + [a[i]];
        assert b[..i + 1] == b[..i] + [b[i]];
        StrCmpEqual(a[i], b[i]);
        LoopCmp(a, b, i + 1)
  }

  /** `Ord::cmp`: the first differing segment decides, by string order. */
  method Cmp(self: Pair, other: Pair) returns (c: Ordering)
    requires !(other.path < self.path)
    ensures c == LoopCmp(self.path, other.path, 0)
  {
    var i := 0;
    while i < |self.path|
      invariant 0 <= i <= |self.path| && i <= |other.path|
      invariant self.path[..i] == other.path[..i]
      invariant LoopCmp(self.path, other.path, i) == LoopCmp(self.path, other.path, 0)
    {
      assert i < |other.path|;
      c := StrCmp(self.path[i], other.path[i]);
      if c != Equal {
        return c;
      }
      StrCmpEqual(self.path[i], other.path[i]);
      assert self.path[..i + 1] == self.path[..i] + [self.path[i]];
      assert other.path[..i + 1] == other.path[..i] + [other.path[i]];
      i := i + 1;
    }
    return Equal;
  }

  /** Neither path is a prefix of the other (in particular they differ). */
  predicate Incomparable(a: Path, b: Path) {
    !(a <= b) && !(b <= a)
  }

  /** The corrected order: lexicographic on segments, a strict prefix first. */
  function PathCmp(a: Path, b: Path): Ordering {
    LexCmp(a, b, StrCmp)
  }

  /** Pairs ordered by their paths alone, as `sorted()` orders them. */
  function PairCmp(p: Pair, q: Pair): Ordering {
    PathCmp(p.path, q.path)
  }

  /**
   * The Rust comparison as written: a path that is a prefix of the other
   * (or equal to it) compares Equal; otherwise the first differing segment
   * decides, exactly as in the lexicographic order.
   */
  lemma {:induction false} LoopCmpMeaning(a: Path, b: Path, i: nat)
    requires i <= |a| && i <= |b| && a[..i] == b[..i]
    requires !(b < a)
    ensures a <= b ==> LoopCmp(a, b, i) == Equal
    ensures !(a <= b) ==> LoopCmp(a, b, i) == PathCmp(a[i..], b[i..])
    decreases |a| - i
  {
    StrCmpTotal();
    if i < |a| {
      assert i < |b|;
      assert a[..i + 1] == a[..i] + [a[i]];
      assert b[..i + 1] == b[..i] + [b[i]];
      if StrCmp(a[i], b[i]) == Equal {
        LoopCmpMeaning(a, b, i + 1);
        assert a[i..][1..] == a[i + 1..] && b[i..][1..] == b[i + 1..];
      } else {
        assert a[i] != b[i];
      }
    } else {
      assert a == a[..i];
    }
  }

  /** On incomparable paths (the only ones a flattened locale holds) `cmp` is the corrected order. */
  lemma CmpAgreesOnIncomparable(a: Path, b: Path)
    requires Incomparable(a, b)
    ensures LoopCmp(a, b, 0) == PathCmp(a, b)
    ensures PathCmp(a, b) != Equal
  {
    LoopCmpMeaning(a, b, 0);
    assert a[0..] == a && b[0..] == b;
    PathCmpTotal();
  }

  /**
   * The defect: `cmp` says Equal for a path and a strict extension of it,
   * while `eq` says they differ, so `Ord` disagrees with `PartialEq`.
   */
  lemma CmpPrefixDisagreesWithEq()
    ensures LoopCmp(["site"], ["site", "name"], 0) == Equal
    ensures ["site"] != ["site", "name"]
  {
    var a: Path := ["site"];
    var b: Path := ["site", "name"];
    LoopCmpMeaning(a, b, 0);
    assert a <= b;
  }

  /** The corrected order is a total order, Equal exactly when `eq` holds. */
  lemma PathCmpTotal()
    ensures TotalOrder(PathCmp)
  {
    StrCmpTotal();
    forall a: Path, b: Path ensures PathCmp(a, b) == Equal <==> a == b {
      LexEqual(a, b, StrCmp);
    }
    forall a: Path, b: Path ensures PathCmp(b, a) == PathCmp(a, b).Reverse() {
      LexReverse(a, b, StrCmp);
    }
    forall a: Path, b: Path, c: Path | PathCmp(a, b) == Less && PathCmp(b, c) == Less
      ensures PathCmp(a, c) == Less
    {
      LexTransitive(a, b, c, StrCmp);
    }
  }

  /** The corrected order puts a strict prefix first, as the specification of the pair order demands. */
  lemma {:induction false} PrefixSortsFirst(a: Path, b: Path)
    requires a < b
    ensures PathCmp(a, b) == Less
    decreases |a|
  {
    if a != [] {
      StrCmpTotal();
      assert a[1..] < b[1..];
      PrefixSortsFirst(a[1..], b[1..]);
    }
  }

  lemma PairCmpPreorder()
    ensures TotalPreorder(PairCmp)
  {
    PathCmpTotal();
    TotalOrderIsPreorder(PathCmp);
  }
}
