/**
 * `ValueIter`: the stack-driven depth-first walk that flattens the value
 * trees of a locale file into (string, path) pairs, and a recursive
 * description of what it yields.
 */
module ValueWalk {
  import opened Wrappers
  import opened Values
  import opened Pairs

  /** `ValuePathPairRef`: a node still to visit and the key path leading to it. */
  datatype Frame = Frame(value: Value, path: Path)

  // ---------------------------------------------------------------------
  // What the walk yields
  // ---------------------------------------------------------------------

  /**
   * The pairs the walk yields for one node, in the order it yields them:
   * nulls and sequences yield nothing, scalars and typed mappings one pair at
   * their own path, any other mapping the pairs of its string-keyed entries,
   * last entry first (the entries are pushed in order and popped in reverse).
   * A node with text of its own yields that text alone.
   */
  function Yield(v: Value, path: Path, env: Renderers): (r: seq<Pair>)
    ensures LeafText(v, env).Some? ==> r == [Pair(LeafText(v, env).value, path)]
    ensures v.Null? || v.Sequence? ==> r == []
    decreases v
  {
    match v
    case Null => []
    case Bool(b) => [Pair(if b then "true" else "false", path)]
    case Number(n) => [Pair(env.showNumber(n), path)]
    case String(s) => [Pair(s, path)]
    case Sequence(_) => []
    case Mapping(es) =>
      match TryFrom(v)
      case Some(tv) => [Pair(Render(tv, env), path)]
      case None => YieldEntries(es, path, env)
  }

  function YieldEntries(es: seq<Entry>, path: Path, env: Renderers): seq<Pair>
    decreases es
  {
    if es == [] then []
    else YieldEntry(es[|es| - 1], path, env) + YieldEntries(es[..|es| - 1], path, env)
  }

  function YieldEntry(e: Entry, path: Path, env: Renderers): seq<Pair>
    decreases e
  {
    if e.key.String? then Yield(e.value, path + [e.key.s], env) else []
  }

  /** What the walk yields from a stack whose top is its last element. */
  function YieldStack(stack: seq<Frame>, env: Renderers): seq<Pair>
    decreases |stack|
  {
    if stack == [] then []
    else
      var top := stack[|stack| - 1];
      Yield(top.value, top.path, env) + YieldStack(stack[..|stack| - 1], env)
  }

  /** The frames pushed for a mapping's entries, in entry order: string keys only, each appending its key. */
  function Children(es: seq<Entry>, path: Path): seq<Frame>
    decreases |es|
  {
    if es == [] then []
    else
      var e := es[|es| - 1];
      Children(es[..|es| - 1], path) + (if e.key.String? then [Frame(e.value, path + [e.key.s])] else [])
  }

  /** The frames `ValueIter::new` pushes: one per top-level key, with that key as its path. */
  function TopFrames(values: seq<(string, Value)>): (r: seq<Frame>)
    ensures |r| == |values|
    ensures forall i :: 0 <= i < |r| ==> r[i].path == [values[i].0] && r[i].value == values[i].1
  {
    seq(|values|, i requires 0 <= i < |values| => Frame(values[i].1, [values[i].0]))
  }

  /**
   * Everything a fresh `ValueIter` yields. The top-level map is a `HashMap`,
   * so `values` lists its entries in that map's (unspecified) iteration order.
   * The walk over the top-level map is the walk over a mapping at the empty
   * path.
   */
  function Flatten(values: seq<(string, Value)>, env: Renderers): (r: seq<Pair>)
    ensures r == YieldEntries(TopEntries(values), [], env)
  {
    TopFramesAreChildren(values);
    ChildrenYield(TopEntries(values), [], env);
    YieldStack(TopFrames(values), env)
  }

  // ---------------------------------------------------------------------
  // An independent description: which nodes yield pairs
  // ---------------------------------------------------------------------

  /** The text a node yields by itself, or `None` when it yields nothing of its own. */
  function LeafText(v: Value, env: Renderers): Option<string> {
    match v
    case Bool(b) => Some(if b then "true" else "false")
    case Number(n) => Some(env.showNumber(n))
    case String(s) => Some(s)
    case Mapping(_) => if TryFrom(v).Some? then Some(Render(TryFrom(v).value, env)) else None
    case _ => None
  }

  /**
   * Following the keys `rel` from `v` through mappings that are not typed
   * values leads to a node whose own text is `t`.
   */
  ghost predicate Reaches(v: Value, rel: seq<string>, t: string, env: Renderers)
    decreases v
  {
    if rel == [] then LeafText(v, env) == Some(t)
    else
      && v.Mapping?
      && TryFrom(v).None?
      && exists j :: 0 <= j < |v.entries| && v.entries[j].key == String(rel[0])
                     && ReachesEntry(v.entries[j], rel[1..], t, env)
  }

  ghost predicate ReachesEntry(e: Entry, rel: seq<string>, t: string, env: Renderers)
    decreases e
  {
    Reaches(e.value, rel, t, env)
  }

  /** Paths in which neither of two yielded pairs is a prefix of the other. */
  predicate PrefixFree(ps: seq<Pair>) {
    forall i, j :: 0 <= i < j < |ps| ==> Incomparable(ps[i].path, ps[j].path)
  }

  // ---------------------------------------------------------------------
  // The iterator
  // ---------------------------------------------------------------------

  function Size(v: Value): nat
    decreases v
  {
    match v
    case Mapping(es) => 1 + EntriesSize(es)
    case _ => 1
  }

  function EntriesSize(es: seq<Entry>): nat
    decreases es
  {
    if es == [] then 0 else EntriesSize(es[..|es| - 1]) + EntrySize(es[|es| - 1])
  }

  function EntrySize(e: Entry): nat
    decreases e
  {
    Size(e.value)
  }

  function StackSize(stack: seq<Frame>): nat
    decreases |stack|
  {
    if stack == [] then 0 else StackSize(stack[..|stack| - 1]) + Size(stack[|stack| - 1].value)
  }

  class ValueIter {
    var stack: seq<Frame>
    const env: Renderers

    /** The pairs this iterator has still to yield. */
    ghost function Remaining(): seq<Pair>
      reads this
    {
      YieldStack(stack, env)
    }

    /** `ValueIter::new`: one frame per top-level entry, in the map's iteration order. */
    constructor (values: seq<(string, Value)>, env: Renderers)
      ensures this.env == env && stack == TopFrames(values)
      ensures Remaining() == Flatten(values, env)
    {
      var s: seq<Frame> := [];
      for i := 0 to |values|
        invariant |s| == i
        invariant forall j :: 0 <= j < i ==> s[j] == Frame(values[j].1, [values[j].0])
      {
        s := s + [Frame(values[i].1, [values[i].0])];
      }
      this.env := env;
      stack := s;
    }

    /**
     * `Iterator::next`: pops frames until one yields a pair, pushing the
     * children of every mapping that is not a typed value on the way.
     * It yields exactly the next pair of the walk, or `None` once the walk is over.
     */
    method Next() returns (p: Option<Pair>)
      modifies this
      ensures p.None? ==> old(Remaining()) == [] && stack == []
      ensures p.Some? ==> old(Remaining()) == [p.value] + Remaining()
    {
      while stack != []
        invariant YieldStack(stack, env) == old(YieldStack(stack, env))
        decreases StackSize(stack)
      {
        var top := stack[|stack| - 1];
        ghost var before := stack;
        stack := stack[..|stack| - 1];
        assert YieldStack(before, env) == Yield(top.value, top.path, env) + YieldStack(stack, env);
        match top.value
        case Null =>
        case Bool(b) =>
          return Some(Pair(if b then "true" else "false", top.path));
        case Number(n) =>
          return Some(Pair(env.showNumber(n), top.path));
        case String(s) =>
          return Some(Pair(s, top.path));
        case Sequence(_) =>
        case Mapping(es) =>
          var tv := TryFrom(top.value);
          if tv.Some? {
            return Some(Pair(Render(tv.value, env), top.path));
          }
          var base := stack;
          for i := 0 to |es|
            invariant stack == base + Children(es[..i], top.path)
          {
            if es[i].key.String? {
              stack := stack + [Frame(es[i].value, top.path + [es[i].key.s])];
            }
            assert es[..i + 1][..i] == es[..i];
          }
          assert es[..|es|] == es;
          YieldStackAppend(base, Children(es, top.path), env);
          ChildrenYield(es, top.path, env);
          StackSizeAppend(base, Children(es, top.path));
          ChildrenSize(es, top.path);
          assert StackSize(before) == StackSize(base) + Size(top.value);
      }
      return None;
    }
  }

  /** `ValueIter::new(..)` followed by `next()` until `None`: the pairs of `Flatten`, in order. */
  method Walk(values: seq<(string, Value)>, env: Renderers) returns (out: seq<Pair>)
    ensures out == Flatten(values, env)
  {
    var it := new ValueIter(values, env);
    out := [];
    while true
      invariant out + it.Remaining() == Flatten(values, env)
      decreases |it.Remaining()|
    {
      var p := it.Next();
      if p.None? {
        return;
      }
      out := out + [p.value];
    }
  }

  // ---------------------------------------------------------------------
  // Stack bookkeeping
  // ---------------------------------------------------------------------

  /** Frames pushed later are visited first. */
  lemma {:induction false} YieldStackAppend(a: seq<Frame>, b: seq<Frame>, env: Renderers)
    ensures YieldStack(a + b, env) == YieldStack(b, env) + YieldStack(a, env)
    decreases |b|
  {
    if b != [] {
      var ab := a + b;
      assert ab[..|ab| - 1] == a + b[..|b| - 1];
      assert ab[|ab| - 1] == b[|b| - 1];
      YieldStackAppend(a, b[..|b| - 1], env);
    } else {
      assert a + b == a;
    }
  }

  lemma {:induction false} StackSizeAppend(a: seq<Frame>, b: seq<Frame>)
    ensures StackSize(a + b) == StackSize(a) + StackSize(b)
    decreases |b|
  {
    if b != [] {
      var ab := a + b;
      assert ab[..|ab| - 1] == a + b[..|b| - 1];
      StackSizeAppend(a, b[..|b| - 1]);
    } else {
      assert a + b == a;
    }
  }

  /** Pushing a mapping's children and walking them yields that mapping's entries. */
  lemma {:induction false} ChildrenYield(es: seq<Entry>, path: Path, env: Renderers)
    ensures YieldStack(Children(es, path), env) == YieldEntries(es, path, env)
    decreases |es|
  {
    if es != [] {
      var e := es[|es| - 1];
      var init := Children(es[..|es| - 1], path);
      var last := if e.key.String? then [Frame(e.value, path + [e.key.s])] else [];
      ChildrenYield(es[..|es| - 1], path, env);
      YieldStackAppend(init, last, env);
      if e.key.String? {
        assert YieldStack(last, env) == Yield(e.value, path + [e.key.s], env) + YieldStack([], env);
      }
    }
  }

  lemma {:induction false} ChildrenSize(es: seq<Entry>, path: Path)
    ensures StackSize(Children(es, path)) <= EntriesSize(es)
    decreases |es|
  {
    if es != [] {
      var e := es[|es| - 1];
      var last := if e.key.String? then [Frame(e.value, path + [e.key.s])] else [];
      ChildrenSize(es[..|es| - 1], path);
      StackSizeAppend(Children(es[..|es| - 1], path), last);
      if e.key.String? {
        assert StackSize(last) == StackSize([]) + Size(e.value);
      }
    }
  }

  // ---------------------------------------------------------------------
  // Which nodes yield pairs
  // ---------------------------------------------------------------------

  /**
   * A pair is yielded for a node exactly when its path extends the node's
   * path and the remaining keys lead, through untyped mappings, to a scalar
   * or a typed mapping with that text. Nulls, sequences and the entries of
   * typed mappings are never visited.
   */
  lemma {:induction false} YieldMember(v: Value, path: Path, env: Renderers, q: Pair)
    ensures q in Yield(v, path, env) <==> path <= q.path && Reaches(v, q.path[|path|..], q.value, env)
    decreases v
  {
    if v.Mapping? && TryFrom(v).None? {
      EntriesMember(v.entries, path, env, q);
      if path < q.path {
        assert q.path[|path|..][1..] == q.path[|path| + 1..];
      }
    } else if path <= q.path && q.path[|path|..] == [] {
      assert q.path == path;
    }
  }

  lemma {:induction false} EntriesMember(es: seq<Entry>, path: Path, env: Renderers, q: Pair)
    ensures q in YieldEntries(es, path, env) <==>
      path < q.path && exists j :: 0 <= j < |es| && es[j].key == String(q.path[|path|])
                                   && ReachesEntry(es[j], q.path[|path| + 1..], q.value, env)
    decreases es
  {
    if es != [] {
      var n := |es| - 1;
      var init := es[..n];
      EntryMember(es[n], path, env, q);
      EntriesMember(init, path, env, q);
      if path < q.path {
        var k, rel := q.path[|path|], q.path[|path| + 1..];
        if exists j :: 0 <= j < |es| && es[j].key == String(k) && ReachesEntry(es[j], rel, q.value, env) {
          var j :| 0 <= j < |es| && es[j].key == String(k) && ReachesEntry(es[j], rel, q.value, env);
          if j < n {
            assert init[j] == es[j];
          }
        }
      }
    }
  }

  lemma {:induction false} EntryMember(e: Entry, path: Path, env: Renderers, q: Pair)
    ensures q in YieldEntry(e, path, env) <==>
      e.key.String? && path < q.path && q.path[|path|] == e.key.s
      && ReachesEntry(e, q.path[|path| + 1..], q.value, env)
    decreases e
  {
    if e.key.String? {
      var p := path + [e.key.s];
      YieldMember(e.value, p, env, q);
      if p <= q.path {
        assert q.path[..|path|] == p[..|path|] == path;
      }
      if path < q.path && q.path[|path|] == e.key.s {
        assert q.path[..|p|] == q.path[..|path|] + [q.path[|path|]];
      }
    }
  }

  /** The pairs of a whole locale file: every path starts with a top-level key and is never empty. */
  lemma FlattenMember(values: seq<(string, Value)>, env: Renderers, q: Pair)
    ensures q in Flatten(values, env) <==>
      q.path != [] && exists i :: 0 <= i < |values| && values[i].0 == q.path[0]
                                  && Reaches(values[i].1, q.path[1..], q.value, env)
  {
    var es := TopEntries(values);
    assert q in Flatten(values, env) <==> q in YieldEntries(es, [], env);
    EntriesMember(es, [], env, q);
    if q.path != [] {
      assert q.path[0 + 1..] == q.path[1..];
      TopReaches(values, env, q.path[0], q.path[1..], q.value);
    }
  }

  /** A top-level entry under key `k` reaches `t` along `rel` exactly when the matching value does. */
  lemma TopReaches(values: seq<(string, Value)>, env: Renderers, k: string, rel: seq<string>, t: string)
    ensures var es := TopEntries(values);
      (exists j :: 0 <= j < |es| && es[j].key == String(k) && ReachesEntry(es[j], rel, t, env))
        <==> (exists i :: 0 <= i < |values| && values[i].0 == k && Reaches(values[i].1, rel, t, env))
  {
    var es := TopEntries(values);
    if exists j :: 0 <= j < |es| && es[j].key == String(k) && ReachesEntry(es[j], rel, t, env) {
      var j :| 0 <= j < |es| && es[j].key == String(k) && ReachesEntry(es[j], rel, t, env);
      assert values[j].0 == k && Reaches(values[j].1, rel, t, env);
    }
    if exists i :: 0 <= i < |values| && values[i].0 == k && Reaches(values[i].1, rel, t, env) {
      var i :| 0 <= i < |values| && values[i].0 == k && Reaches(values[i].1, rel, t, env);
      assert es[i].key == String(k) && ReachesEntry(es[i], rel, t, env);
    }
  }

  /** The top-level map read as a mapping with string keys. */
  function TopEntries(values: seq<(string, Value)>): seq<Entry> {
    seq(|values|, i requires 0 <= i < |values| => Entry(String(values[i].0), values[i].1))
  }

  /** `ValueIter::new` pushes what visiting the top-level map as a mapping at the empty path would push. */
  lemma {:induction false} TopFramesAreChildren(values: seq<(string, Value)>)
    ensures TopFrames(values) == Children(TopEntries(values), [])
    decreases |values|
  {
    if values != [] {
      var n := |values| - 1;
      var es := TopEntries(values);
      TopFramesAreChildren(values[..n]);
      assert es[..n] == TopEntries(values[..n]);
      assert es[n].key.String? && es[n].key.s == values[n].0;
      var empty: Path := [];
      assert empty + [values[n].0] == [values[n].0];
      assert Children(es, []) == Children(es[..n], []) + [Frame(values[n].1, [values[n].0])];
      assert TopFrames(values) == TopFrames(values[..n]) + [Frame(values[n].1, [values[n].0])];
    }
  }

  // ---------------------------------------------------------------------
  // No yielded path is a prefix of another
  // ---------------------------------------------------------------------

  lemma PrefixFreeConcat(a: seq<Pair>, b: seq<Pair>)
    requires PrefixFree(a) && PrefixFree(b)
    requires forall x, y :: x in a && y in b ==> Incomparable(x.path, y.path)
    ensures PrefixFree(a + b)
  {
    forall i, j | 0 <= i < j < |a + b| ensures Incomparable((a + b)[i].path, (a + b)[j].path) {
      if i < |a| && j >= |a| {
        assert (a + b)[i] in a && (a + b)[j] in b;
      }
    }
  }

  /** Paths that differ at an index both reach are incomparable. */
  lemma DifferAt(p: Path, r: Path, k: nat)
    requires k < |p| && k < |r| && p[k] != r[k]
    ensures Incomparable(p, r)
  {
  }

  /** In a tree without repeated keys, no yielded path is a prefix of another (so all differ). */
  lemma {:induction false} YieldPrefixFree(v: Value, path: Path, env: Renderers)
    requires WellFormed(v)
    ensures PrefixFree(Yield(v, path, env))
    decreases v
  {
    if v.Mapping? && TryFrom(v).None? {
      EntriesPrefixFree(v.entries, path, env);
    }
  }

  lemma {:induction false} EntriesPrefixFree(es: seq<Entry>, path: Path, env: Renderers)
    requires DistinctKeys(es) && forall i :: 0 <= i < |es| ==> WellFormedEntry(es[i])
    ensures PrefixFree(YieldEntries(es, path, env))
    decreases es
  {
    if es != [] {
      var n := |es| - 1;
      var init := es[..n];
      var a, b := YieldEntry(es[n], path, env), YieldEntries(init, path, env);
      EntryPrefixFree(es[n], path, env);
      EntriesPrefixFree(init, path, env);
      forall x, y | x in a && y in b ensures Incomparable(x.path, y.path) {
        EntryMember(es[n], path, env, x);
        EntriesMember(init, path, env, y);
        var j :| 0 <= j < n && init[j].key == String(y.path[|path|])
                 && ReachesEntry(init[j], y.path[|path| + 1..], y.value, env);
        assert es[j] == init[j];
        DifferAt(x.path, y.path, |path|);
      }
      PrefixFreeConcat(a, b);
    }
  }

  lemma {:induction false} EntryPrefixFree(e: Entry, path: Path, env: Renderers)
    requires WellFormedEntry(e)
    ensures PrefixFree(YieldEntry(e, path, env))
    decreases e
  {
    if e.key.String? {
      YieldPrefixFree(e.value, path + [e.key.s], env);
    }
  }

  /**
   * A locale file whose maps repeat no key flattens to pairs no two of
   * which share a path or have one path a prefix of the other.
   */
  lemma FlattenPrefixFree(values: seq<(string, Value)>, env: Renderers)
    requires forall i, j :: 0 <= i < j < |values| ==> values[i].0 != values[j].0
    requires forall i :: 0 <= i < |values| ==> WellFormed(values[i].1)
    ensures PrefixFree(Flatten(values, env))
  {
    var es := TopEntries(values);
    assert forall i :: 0 <= i < |es| ==> WellFormedEntry(es[i]);
    EntriesPrefixFree(es, [], env);
  }
}
