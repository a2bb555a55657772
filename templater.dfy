/**
 * One level of rendering. Every comment anchored in a fragment is resolved
 * against the level's scope, in the order of the start markers. A value
 * comment fills the first `w:t` of its range with the value. A loop comment
 * repeats the deepest node enclosing its range: once per scope, each copy
 * rendered as a level of its own.
 */
module Templater {
  import opened Values
  import opened Tree
  import opened Scope
  import opened Tokenizer
  import opened Resolver

  datatype RenderError =
    | Unresolved(cause: ResolveError)  // the resolver refused a comment
    | MissingEnd(id: int)              // a comment has a start marker and no end marker
    | RootRange(id: int)               // a loop's range is the fragment itself, which has no parent
    | CrossingRange(id: int)           // a pending comment ends inside a repeated range but starts outside it

  predicate Distinct(xs: seq<int>) {
    forall i, j :: 0 <= i < j < |xs| ==> xs[i] != xs[j]
  }

  // ---------------------------------------------------------------------------
  // The walk of a value comment

  /** The position after `k` in document order; after the last node the walk is back at the root. */
  function Succ(k: nat, n: nat): (r: nat)
    requires k < n
    ensures r < n
  {
    if k + 1 == n then 0 else k + 1
  }

  /** How many steps lead from position `k` to position `ie` when every step is `Succ`. */
  function Distance(k: nat, ie: nat, n: nat): nat
    requires k < n
  {
    if k <= ie then ie - k else n - k + ie
  }

  /** The positions the walk passes from `k` until it meets `ie`, `ie` left out. */
  function Route(k: nat, ie: nat, n: nat): (r: seq<nat>)
    requires k < n && ie < n
    ensures |r| == Distance(k, ie, n)
    ensures forall d :: 0 <= d < |r| ==> r[d] < n && r[d] != ie
    decreases Distance(k, ie, n)
  {
    if k == ie then [] else [k] + Route(Succ(k, n), ie, n)
  }

  /** The node at position `k` of document order is a `w:t`. */
  predicate RunAt(t: Node, k: nat)
    requires k < |Preorder(t)|
  {
    PreorderValid(t, k);
    At(t, Preorder(t)[k]).TextRun?
  }

  /** Where the walk from position `k` stops for a `w:t` before it meets `ie`, if it does. */
  function FirstRun(t: Node, k: nat, ie: nat): (w: Option<nat>)
    requires k < |Preorder(t)| && ie < |Preorder(t)|
    ensures w.Some? ==> w.value < |Preorder(t)| && RunAt(t, w.value)
    decreases Distance(k, ie, |Preorder(t)|)
  {
    if k == ie then None
    else if RunAt(t, k) then Some(k)
    else FirstRun(t, Succ(k, |Preorder(t)|), ie)
  }

  /** None of the positions `route[..upto]` holds a `w:t`. */
  predicate NoRunBefore(t: Node, route: seq<nat>, upto: nat)
    requires upto <= |route| && forall d :: 0 <= d < |route| ==> route[d] < |Preorder(t)|
  {
    forall d :: 0 <= d < upto ==> !RunAt(t, route[d])
  }

  /**
   * The walk stops at the first `w:t` of its route, and finds none exactly
   * when the route holds none.
   */
  lemma FirstRunRoute(t: Node, k: nat, ie: nat)
    requires k < |Preorder(t)| && ie < |Preorder(t)|
    ensures var route := Route(k, ie, |Preorder(t)|);
      && (FirstRun(t, k, ie).None? ==> NoRunBefore(t, route, |route|))
      && (FirstRun(t, k, ie).Some? ==>
            exists d :: 0 <= d < |route| && route[d] == FirstRun(t, k, ie).value && NoRunBefore(t, route, d))
  {
    var route := Route(k, ie, |Preorder(t)|);
    if FirstRun(t, k, ie).None? {
      FirstRunMiss(t, k, ie);
    } else {
      var d := FirstRunHit(t, k, ie);
      assert 0 <= d < |route| && route[d] == FirstRun(t, k, ie).value && NoRunBefore(t, route, d);
    }
  }

  /** A walk that finds nothing passes no `w:t`. */
  lemma {:induction false} FirstRunMiss(t: Node, k: nat, ie: nat)
    requires k < |Preorder(t)| && ie < |Preorder(t)| && FirstRun(t, k, ie).None?
    ensures var route := Route(k, ie, |Preorder(t)|); NoRunBefore(t, route, |route|)
    decreases Distance(k, ie, |Preorder(t)|)
  {
    var n := |Preorder(t)|;
    if k != ie {
      FirstRunMiss(t, Succ(k, n), ie);
      var route := Route(k, ie, n);
      var next := Route(Succ(k, n), ie, n);
      assert route == [k] + next;
      forall d | 0 <= d < |route| ensures !RunAt(t, route[d]) {
        if d > 0 {
          assert route[d] == next[d - 1];
        }
      }
    }
  }

  /** A walk that finds a `w:t` finds it at some step `d` of its route, after no other. */
  lemma {:induction false} FirstRunHit(t: Node, k: nat, ie: nat) returns (d: nat)
    requires k < |Preorder(t)| && ie < |Preorder(t)| && FirstRun(t, k, ie).Some?
    ensures var route := Route(k, ie, |Preorder(t)|);
      d < |route| && route[d] == FirstRun(t, k, ie).value && NoRunBefore(t, route, d)
    decreases Distance(k, ie, |Preorder(t)|)
  {
    var n := |Preorder(t)|;
    var route := Route(k, ie, n);
    var next := Route(Succ(k, n), ie, n);
    assert route == [k] + next;
    if RunAt(t, k) {
      d := 0;
    } else {
      var e := FirstRunHit(t, Succ(k, n), ie);
      d := e + 1;
      assert route[d] == next[e];
      forall d' | 0 <= d' < d ensures !RunAt(t, route[d']) {
        if d' > 0 {
          assert route[d'] == next[d' - 1];
        }
      }
    }
  }

  /**
   * The walk from the start marker: first child, else next sibling, else
   * the next sibling of the nearest ancestor that has one, and the root once
   * none has; it stops at a `w:t` or at the end marker, and breaks off at a
   * root without children. It finds the `w:t` the position walk finds.
   */
  method WalkToRun(t: Node, s: Path, e: Path) returns (w: Option<Path>)
    requires ValidPath(t, s) && ValidPath(t, e)
    ensures w == FoundRun(t, s, e)
  {
    PreorderComplete(t, s);
    PreorderComplete(t, e);
    ghost var order := Preorder(t);
    ghost var ks := IndexOf(order, s);
    ghost var ie := IndexOf(order, e);
    ghost var k: nat := ks;
    var node := s;
    while node != e
      invariant k < |order| && node == order[k] && e == order[ie]
      invariant FirstRun(t, ks, ie) == FirstRun(t, k, ie)
      decreases Distance(k, ie, |order|)
    {
      PreorderValid(t, k);
      if At(t, node).TextRun? {
        return Some(node);
      }
      NextPreorder(t, k);
      var step := Next(t, node);
      if step.None? {
        return None;
      }
      node := step.value;
      k := Succ(k, |order|);
    }
    PreorderInjective(t, k, ie);
    return None;
  }

  /**
   * The `w:t` the walk from the start marker stops at: the first one after
   * the start marker in document order, going on from the root once the
   * last node is passed, unless the end marker comes first.
   */
  function FoundRun(t: Node, s: Path, e: Path): (w: Option<Path>)
    requires ValidPath(t, s) && ValidPath(t, e)
    ensures w.Some? ==> ValidPath(t, w.value) && At(t, w.value).TextRun?
  {
    PreorderComplete(t, s);
    PreorderComplete(t, e);
    var order := Preorder(t);
    match FirstRun(t, IndexOf(order, s), IndexOf(order, e))
    case None => None
    case Some(k) => PreorderValid(t, k); Some(order[k])
  }

  /** The position of a path in a list of paths. */
  function IndexOf(ps: seq<Path>, p: Path): (k: nat)
    requires p in ps
    ensures k < |ps| && ps[k] == p
  {
    if ps[0] == p then 0 else 1 + IndexOf(ps[1..], p)
  }

  // ---------------------------------------------------------------------------
  // Taking out a comment's markers

  /** `s` and `e` lead to two different markers below the root. */
  predicate Anchored(t: Node, s: Path, e: Path) {
    && ValidPath(t, s) && |s| > 0 && IsMarker(At(t, s))
    && ValidPath(t, e) && |e| > 0 && IsMarker(At(t, e))
    && s != e
  }

  /** Both markers taken out of their parents: the start first, then the end. */
  function Unmark(t: Node, s: Path, e: Path): Node
    requires Anchored(t, s, e)
  {
    RemoveShift(t, s, e);
    Remove(Remove(t, s), Shift(e, s))
  }

  /** Taking out the markers takes out exactly those two and does not raise the tree. */
  lemma UnmarkFacts(t: Node, s: Path, e: Path, m: Node)
    requires Anchored(t, s, e)
    ensures Markers(Unmark(t, s, e))[m] + Markers(At(t, s))[m] + Markers(At(t, e))[m] == Markers(t)[m]
    ensures Height(Unmark(t, s, e)) <= Height(t)
    ensures Unmark(t, s, e).Element?
  {
    var t1 := Remove(t, s);
    RemoveShift(t, s, e);
    SpliceMarkers(t, s, [], m);
    SpliceMarkers(t1, Shift(e, s), [], m);
    SpliceHeight(t, s, []);
    SpliceHeight(t1, Shift(e, s), []);
  }

  /** Every node enclosing both markers is still there, an element, once they are out. */
  lemma UnmarkAncestor(t: Node, s: Path, e: Path, n: nat)
    requires Anchored(t, s, e)
    requires n < |s| && n < |e| && s[..n] == e[..n]
    ensures ValidPath(Unmark(t, s, e), s[..n]) && At(Unmark(t, s, e), s[..n]).Element?
  {
    RemoveShift(t, s, e);
    ShiftPrefix(e, s, n);
    SpliceAncestor(Remove(t, s), Shift(e, s), [], n);
  }

  // ---------------------------------------------------------------------------
  // A value comment

  /**
   * The value case: the `w:t` the walk found, if it found one, has its text
   * replaced by the value; then the markers go.
   */
  function Fill(t: Node, s: Path, e: Path, w: Option<Path>, data: Value): Node
    requires Anchored(t, s, e)
    requires w.Some? ==> ValidPath(t, w.value) && At(t, w.value).TextRun?
  {
    if w.None? then Unmark(t, s, e)
    else
      FilledAnchored(t, w.value, s, e, data);
      Unmark(Replace(t, w.value, TextRun([data])), s, e)
  }

  /** Filling a `w:t` leaves both markers where they were. */
  lemma FilledAnchored(t: Node, p: Path, s: Path, e: Path, data: Value)
    requires Anchored(t, s, e) && ValidPath(t, p) && At(t, p).TextRun?
    ensures Anchored(Replace(t, p, TextRun([data])), s, e)
    ensures At(Replace(t, p, TextRun([data])), s) == At(t, s)
    ensures At(Replace(t, p, TextRun([data])), e) == At(t, e)
  {
    ReplaceLeaf(t, p, TextRun([data]), s);
    ReplaceLeaf(t, p, TextRun([data]), e);
  }

  /** Filling takes out exactly the comment's two markers and does not raise the tree. */
  lemma {:induction false} FillFacts(t: Node, s: Path, e: Path, w: Option<Path>, data: Value, m: Node)
    requires Anchored(t, s, e)
    requires w.Some? ==> ValidPath(t, w.value) && At(t, w.value).TextRun?
    ensures Markers(Fill(t, s, e, w, data))[m] + Markers(At(t, s))[m] + Markers(At(t, e))[m] == Markers(t)[m]
    ensures Height(Fill(t, s, e, w, data)) <= Height(t)
    ensures Fill(t, s, e, w, data).Element?
  {
    if w.None? {
      UnmarkFacts(t, s, e, m);
    } else {
      var p := w.value;
      var filled := Replace(t, p, TextRun([data]));
      FilledAnchored(t, p, s, e, data);
      ReplaceMarkers(t, p, TextRun([data]), m);
      ReplaceHeight(t, p, TextRun([data]));
      UnmarkFacts(filled, s, e, m);
    }
  }

  /** The `w:t` the walk found holds just the value once the markers are out. */
  lemma FillHoldsValue(t: Node, s: Path, e: Path, p: Path, data: Value)
    requires Anchored(t, s, e) && ValidPath(t, p) && At(t, p).TextRun?
    ensures var q := Shift(Shift(p, s), Shift(e, s));
      ValidPath(Fill(t, s, e, Some(p), data), q) && At(Fill(t, s, e, Some(p), data), q) == TextRun([data])
  {
    var filled := Replace(t, p, TextRun([data]));
    FilledAnchored(t, p, s, e, data);
    ReplaceAt(t, p, TextRun([data]));
    assert p != s;
    RemoveShift(filled, s, p);
    RemoveShift(filled, s, e);
    RemoveShift(Remove(filled, s), Shift(e, s), Shift(p, s));
  }

  /** After a replacement the path leads to the new node. */
  lemma {:induction false} ReplaceAt(t: Node, p: Path, n: Node)
    requires ValidPath(t, p)
    ensures ValidPath(Replace(t, p, n), p) && At(Replace(t, p, n), p) == n
    decreases |p|
  {
    if |p| > 0 {
      ReplaceAt(t.children[p[0]], p[1..], n);
    }
  }

  // ---------------------------------------------------------------------------
  // A loop comment

  /** The length of the longest common prefix of two paths. */
  function CommonLength(a: Path, b: Path): (n: nat)
    ensures n <= |a| && n <= |b| && a[..n] == b[..n]
    ensures n < |a| && n < |b| ==> a[n] != b[n]
  {
    if |a| == 0 || |b| == 0 || a[0] != b[0] then 0
    else
      var n := CommonLength(a[1..], b[1..]);
      assert a[..n + 1] == [a[0]] + a[1..][..n];
      assert b[..n + 1] == [b[0]] + b[1..][..n];
      n + 1
  }

  /** The deepest node that holds both markers strictly below it: the root of a loop's range. */
  function CommonAncestor(s: Path, e: Path): (c: Path)
    requires |s| > 0 && |e| > 0
  {
    var n := CommonLength(s, e);
    var cap := (if |s| < |e| then |s| else |e|) - 1;
    s[..if n < cap then n else cap]
  }

  /**
   * The range root is a proper ancestor of both markers, and every proper
   * ancestor of both lies on its path.
   */
  lemma DeepestCommon(s: Path, e: Path)
    requires |s| > 0 && |e| > 0
    ensures var c := CommonAncestor(s, e);
      && |c| < |s| && |c| < |e| && s[..|c|] == c && e[..|c|] == c
      && forall n :: 0 <= n < |s| && n < |e| && s[..n] == e[..n] ==> n <= |c|
  {
    var c := CommonAncestor(s, e);
    var len := CommonLength(s, e);
    forall n | 0 <= n < |s| && n < |e| && s[..n] == e[..n] ensures n <= |c| {
    }
  }

  /** The ancestors of the node at `p`, from its parent up to the root: their paths. */
  method Ancestors(p: Path) returns (stack: seq<Path>)
    ensures |stack| == |p|
    ensures forall i :: 0 <= i < |p| ==> stack[i] == p[..|p| - 1 - i]
  {
    stack := [];
    var node := p;
    while |node| > 0
      invariant |stack| + |node| == |p| && node == p[..|node|]
      invariant forall i :: 0 <= i < |stack| ==> stack[i] == p[..|p| - 1 - i]
      decreases |node|
    {
      node := node[..|node| - 1];
      stack := stack + [node];
    }
  }

  /** `array_reverse`. */
  function Reverse(xs: seq<Path>): (r: seq<Path>)
    ensures |r| == |xs| && forall i :: 0 <= i < |xs| ==> r[i] == xs[|xs| - 1 - i]
  {
    if |xs| == 0 then [] else Reverse(xs[1..]) + [xs[0]]
  }

  /**
   * The range root of a loop: the ancestor chains of both markers, root
   * first, are compared position by position; the last position where they
   * agree, before the first where they differ, is the root.
   */
  method RangeRoot(s: Path, e: Path) returns (root: Path)
    requires |s| > 0 && |e| > 0
    ensures root == CommonAncestor(s, e)
  {
    var starts := Ancestors(s);
    var ends := Ancestors(e);
    var len := if |starts| < |ends| then |starts| else |ends|;
    starts := Reverse(starts);
    ends := Reverse(ends);
    root := [];
    var i := 0;
    while i < len
      invariant 0 <= i <= len
      invariant forall j :: 0 <= j < i ==> s[..j] == e[..j]
      invariant i > 0 ==> root == s[..i - 1]
      decreases len - i
    {
      assert starts[i] == s[..i] && ends[i] == e[..i];
      if starts[i] != ends[i] {
        break;
      }
      root := starts[i];
      i := i + 1;
    }
    assert i > 0 by {
      assert s[..0] == e[..0];
    }
    DeepestCommon(s, e);
    var c := CommonAncestor(s, e);
    assert s[..|c|] == e[..|c|];
  }

  /** The ids of `xs` that `drop` does not list, in their order. */
  function Without(xs: seq<int>, drop: seq<int>): (r: seq<int>)
    ensures |r| <= |xs|
    decreases |xs|
  {
    if |xs| == 0 then []
    else
      var rest := Without(xs[1..], drop);
      if xs[0] in drop then rest else [xs[0]] + rest
  }

  /** An id survives exactly when it is listed and not dropped; survivors keep being distinct. */
  lemma {:induction false} WithoutMembers(xs: seq<int>, drop: seq<int>)
    ensures forall x :: x in Without(xs, drop) <==> x in xs && x !in drop
    ensures Distinct(xs) ==> Distinct(Without(xs, drop))
    decreases |xs|
  {
    if |xs| > 0 {
      WithoutMembers(xs[1..], drop);
      assert forall x :: x in xs <==> x == xs[0] || x in xs[1..];
      assert Distinct(xs) ==> Distinct(xs[1..]) && xs[0] !in xs[1..];
    }
  }

  lemma {:induction false} WithoutNone(xs: seq<int>)
    ensures Without(xs, []) == xs
    decreases |xs|
  {
    if |xs| > 0 {
      WithoutNone(xs[1..]);
      assert xs == [xs[0]] + xs[1..];
    }
  }

  lemma {:induction false} WithoutStep(xs: seq<int>, drop: seq<int>, y: int)
    ensures Without(Without(xs, drop), [y]) == Without(xs, drop + [y])
    decreases |xs|
  {
    if |xs| > 0 {
      WithoutStep(xs[1..], drop, y);
      var rest := Without(xs[1..], drop);
      if xs[0] !in drop {
        assert ([xs[0]] + rest)[1..] == rest;
      }
    }
  }

  /** The pending ids of every start marker inside a repeated range taken out. */
  method Prune(pending: seq<int>, starts: seq<int>) returns (rest: seq<int>)
    ensures rest == Without(pending, starts)
  {
    rest := pending;
    var n := 0;
    WithoutNone(pending);
    while n < |starts|
      invariant n <= |starts| && rest == Without(pending, starts[..n])
      decreases |starts| - n
    {
      WithoutStep(pending, starts[..n], starts[n]);
      assert starts[..n + 1] == starts[..n] + [starts[n]];
      rest := Without(rest, [starts[n]]);
      n := n + 1;
    }
    assert starts[..n] == starts;
  }

  // The pruning as written: `unset($ids[array_search($id, $ids)])`, where a
  // miss (`false`) is read as key 0. Keys are never renumbered, and each
  // search sees the list left by the unsets before it.

  /**
   * `array_search` from key `i` on, over the entries not yet unset: the
   * first such key holding `id`, or None for `false`.
   */
  function ArraySearch(ids: seq<int>, gone: set<nat>, id: int, i: nat): (r: Option<nat>)
    requires i <= |ids|
    ensures r.Some? ==> i <= r.value < |ids| && r.value !in gone && ids[r.value] == id
    ensures r.Some? ==> forall k :: i <= k < r.value && k !in gone ==> ids[k] != id
    ensures r.None? <==> forall k :: i <= k < |ids| && k !in gone ==> ids[k] != id
    decreases |ids| - i
  {
    if i == |ids| then None
    else if i !in gone && ids[i] == id then Some(i)
    else ArraySearch(ids, gone, id, i + 1)
  }

  /** The keys unset for the start ids `starts`: the found key, or key 0 on a miss. */
  function UnsetKeys(ids: seq<int>, starts: seq<int>): (keys: set<nat>)
    decreases |starts|
  {
    if |starts| == 0 then {}
    else
      var before := UnsetKeys(ids, starts[..|starts| - 1]);
      var key := match ArraySearch(ids, before, starts[|starts| - 1], 0) case Some(k) => k case None => 0;
      before + {key}
  }

  /** The entries of `ids`, numbered from `base`, whose key is not in `keys`. */
  function Keep(ids: seq<int>, keys: set<nat>, base: nat): (r: seq<int>)
    ensures forall x :: x in r ==> x in ids
    decreases |ids|
  {
    if |ids| == 0 then []
    else (if base in keys then [] else [ids[0]]) + Keep(ids[1..], keys, base + 1)
  }

  function PruneAsWritten(ids: seq<int>, starts: seq<int>): seq<int> {
    Keep(ids, UnsetKeys(ids, starts), 0)
  }

  /** A start id that is not pending unsets key 0. */
  lemma {:induction false} MissUnsetsFirst(ids: seq<int>, starts: seq<int>, miss: nat)
    requires miss < |starts| && starts[miss] !in ids
    ensures 0 in UnsetKeys(ids, starts)
    decreases |starts|
  {
    if miss < |starts| - 1 {
      assert starts[..|starts| - 1][miss] == starts[miss];
      MissUnsetsFirst(ids, starts[..|starts| - 1], miss);
    }
  }

  /**
   * As written, a range holding the start marker of an id that is not
   * pending drops the first pending id, which the intended pruning keeps.
   */
  lemma PruneDropsFirst(ids: seq<int>, starts: seq<int>, miss: nat)
    requires Distinct(ids) && |ids| > 0 && ids[0] !in starts
    requires miss < |starts| && starts[miss] !in ids
    ensures ids[0] !in PruneAsWritten(ids, starts)
    ensures ids[0] in Without(ids, starts)
  {
    MissUnsetsFirst(ids, starts, miss);
    var keys := UnsetKeys(ids, starts);
    assert PruneAsWritten(ids, starts) == Keep(ids[1..], keys, 1);
    assert ids[0] !in ids[1..];
    WithoutMembers(ids, starts);
  }

  /** The smallest such input: pending 7 and 9, a range holding the start of 5. */
  lemma PruneDropsExample()
    ensures PruneAsWritten([7, 9], [5]) == [9]
    ensures Without([7, 9], [5]) == [7, 9]
  {
    assert ArraySearch([7, 9], {}, 5, 0) == None;
    assert UnsetKeys([7, 9], [5]) == {0};
  }

  /** The keys unset for a prefix of the start ids stay unset. */
  lemma {:induction false} UnsetKeysGrow(ids: seq<int>, starts: seq<int>, n: nat)
    requires n <= |starts|
    ensures UnsetKeys(ids, starts[..n]) <= UnsetKeys(ids, starts)
    decreases |starts|
  {
    if n < |starts| {
      var init := starts[..|starts| - 1];
      assert init[..n] == starts[..n];
      UnsetKeysGrow(ids, init, n);
    } else {
      assert starts[..n] == starts;
    }
  }

  /** Once a pending id's start has been seen, the key holding it is unset. */
  lemma {:induction false} SeenUnset(ids: seq<int>, starts: seq<int>, k: nat)
    requires k < |ids| && ids[k] in starts && Distinct(ids)
    ensures k in UnsetKeys(ids, starts)
    decreases |starts|
  {
    var init := starts[..|starts| - 1];
    var before := UnsetKeys(ids, init);
    if ids[k] in init {
      SeenUnset(ids, init, k);
    } else {
      assert starts[|starts| - 1] == ids[k];
      if k !in before {
        assert ArraySearch(ids, before, ids[k], 0) == Some(k);
      }
    }
  }

  /** The second of two start markers of one pending id is a miss, and unsets key 0. */
  lemma RepeatUnsetsFirst(ids: seq<int>, starts: seq<int>, i: nat, j: nat)
    requires Distinct(ids) && i < j < |starts| && starts[i] == starts[j] && starts[i] in ids
    ensures 0 in UnsetKeys(ids, starts)
  {
    var k :| 0 <= k < |ids| && ids[k] == starts[i];
    var init := starts[..j];
    assert init[i] == starts[i];
    SeenUnset(ids, init, k);
    var step := starts[..j + 1];
    assert step[..|step| - 1] == init && step[|step| - 1] == ids[k];
    assert ArraySearch(ids, UnsetKeys(ids, init), ids[k], 0) == None;
    assert 0 in UnsetKeys(ids, step);
    UnsetKeysGrow(ids, starts, j + 1);
  }

  /**
   * As written, a range holding two start markers of one pending id also
   * drops the first pending id, which the intended pruning keeps.
   */
  lemma PruneRepeatDropsFirst(ids: seq<int>, starts: seq<int>, i: nat, j: nat)
    requires Distinct(ids) && |ids| > 0 && ids[0] !in starts
    requires i < j < |starts| && starts[i] == starts[j] && starts[i] in ids
    ensures ids[0] !in PruneAsWritten(ids, starts)
    ensures ids[0] in Without(ids, starts)
  {
    RepeatUnsetsFirst(ids, starts, i, j);
    var keys := UnsetKeys(ids, starts);
    assert PruneAsWritten(ids, starts) == Keep(ids[1..], keys, 1);
    assert ids[0] !in ids[1..];
    WithoutMembers(ids, starts);
  }

  /** The smallest such input: pending 7 and 9, a range holding two starts of 9. */
  lemma PruneRepeatExample()
    ensures PruneAsWritten([7, 9], [9, 9]) == []
    ensures Without([7, 9], [9, 9]) == [7]
  {
    assert ArraySearch([7, 9], {}, 9, 0) == Some(1);
    assert [9, 9][..1] == [9];
    assert UnsetKeys([7, 9], [9]) == {1};
    assert ArraySearch([7, 9], {1}, 9, 0) == None;
    assert UnsetKeys([7, 9], [9, 9]) == {0, 1};
  }

  /**
   * Once a loop comment's markers are out, its range root is an element
   * strictly below the fragment root unless it is the root itself; every
   * pending id left after pruning still has its start marker, outside the
   * range.
   */
  lemma RangeFacts(t: Node, s: Path, e: Path, id: int, pending: seq<int>)
    requires Anchored(t, s, e) && At(t, s) == RangeStart(id) && At(t, e) == RangeEnd(id)
    requires Reference !in Markers(t)
    requires Distinct(pending) && id !in pending
    requires forall y :: y in pending ==> RangeStart(y) in Markers(t)
    ensures var c := CommonAncestor(s, e);
      var t2 := Unmark(t, s, e);
      && t2.Element? && Height(t2) <= Height(t) && Reference !in Markers(t2)
      && ValidPath(t2, c) && At(t2, c).Element?
      && (|c| > 0 ==> Height(At(t2, c)) < Height(t2))
      && var rest := Without(pending, StartIds(At(t2, c)));
        && Distinct(rest)
        && forall y :: y in rest ==> y in pending && RangeStart(y) in Markers(t2) && RangeStart(y) !in Markers(At(t2, c))
  {
    var c := CommonAncestor(s, e);
    var t2 := Unmark(t, s, e);
    DeepestCommon(s, e);
    UnmarkAncestor(t, s, e, |c|);
    UnmarkFacts(t, s, e, Reference);
    AtHeight(t2, c);
    var range := At(t2, c);
    WithoutMembers(pending, StartIds(range));
    forall y | y in Without(pending, StartIds(range))
      ensures y in pending && RangeStart(y) in Markers(t2) && RangeStart(y) !in Markers(range)
    {
      UnmarkFacts(t, s, e, RangeStart(y));
      StartIdsMarkers(range, y);
    }
  }

  /**
   * The last end marker with id `y`, the one a level keeps for `y`, lies
   * at or below `c`.
   */
  predicate EndsUnder(t: Node, y: int, c: Path) {
    FindLast(t, RangeEnd(y)).Some? && c <= FindLast(t, RangeEnd(y)).value
  }

  /** The first of `ids` whose last end marker lies inside the range rooted at `c`, if any. */
  function FirstCrossing(ids: seq<int>, t: Node, c: Path): (r: Option<int>)
    ensures r.Some? ==> r.value in ids && EndsUnder(t, r.value, c)
    ensures r.Some? ==> forall j :: 0 <= j < |ids| && r.value !in ids[..j] ==>
      ids[j] == r.value || !EndsUnder(t, ids[j], c)
    ensures r.None? ==> forall y :: y in ids ==> !EndsUnder(t, y, c)
  {
    if |ids| == 0 then None
    else if EndsUnder(t, ids[0], c) then Some(ids[0])
    else FirstCrossing(ids[1..], t, c)
  }

  // A row holding the start and end of loop 1 and, in a cell, a stray end
  // marker of comment 2, whose last end marker follows in the next paragraph.
  const StrayBody: Node := Element("w:body", [
    Element("w:tr", [RangeStart(1), StrayCell, RangeEnd(1)]),
    StrayPara])
  const StrayPara: Node := Element("w:p", [RangeStart(2), TextRun([]), RangeEnd(2)])
  const StrayRow: Node := Element("w:tr", [StrayCell])

  const StrayCell: Node := Element("w:tc", [RangeEnd(2)])
  const StrayHalfRow: Node := Element("w:tr", [StrayCell, RangeEnd(1)])

  /** The loop's start marker out of the example row. */
  lemma StrayRemoveStart()
    ensures ValidPath(StrayBody, [0, 0])
    ensures Remove(StrayBody, [0, 0]) == Element("w:body", [StrayHalfRow, StrayPara])
  {
    var row := StrayBody.children[0];
    assert row.children[..0] + [] + row.children[1..] == StrayHalfRow.children;
    assert Splice(row, [0], []) == StrayHalfRow;
  }

  /** Then its end marker, one place further left. */
  lemma StrayRemoveEnd()
    ensures ValidPath(Element("w:body", [StrayHalfRow, StrayPara]), [0, 1])
    ensures Remove(Element("w:body", [StrayHalfRow, StrayPara]), [0, 1]) == Element("w:body", [StrayRow, StrayPara])
  {
    var row := StrayHalfRow;
    assert row.children[..1] + [] + row.children[2..] == StrayRow.children;
    assert Splice(row, [1], []) == StrayRow;
  }

  /** The loop's markers out of the example body. */
  lemma StrayUnmark()
    ensures Anchored(StrayBody, [0, 0], [0, 2])
    ensures Unmark(StrayBody, [0, 0], [0, 2]) == Element("w:body", [StrayRow, StrayPara])
  {
    var row := StrayBody.children[0];
    assert At(StrayBody, [0, 0]) == row.children[0] == RangeStart(1);
    assert At(StrayBody, [0, 2]) == row.children[2] == RangeEnd(1);
    assert Shift([0, 2], [0, 0]) == [0, 1];
    StrayRemoveStart();
    StrayRemoveEnd();
  }

  /** The last end marker of comment 2 is in the paragraph, not in the row. */
  lemma StrayLastEnd()
    ensures FindLast(Element("w:body", [StrayRow, StrayPara]), RangeEnd(2)) == Some([1, 2])
  {
    var m := RangeEnd(2);
    assert FindLast(RangeEnd(2), m) == Some([]);
    assert Kids(StrayPara)[2] == m && [2] + [] == [2];
    assert LastAmong(StrayPara, m, 3) == Some([2]);
    assert FindLast(StrayPara, m) == Some([2]);
    var t2 := Element("w:body", [StrayRow, StrayPara]);
    assert Kids(t2)[1] == StrayPara && [1] + [2] == [1, 2];
    assert LastAmong(t2, m, 2) == Some([1, 2]);
  }

  /** The example has no comment reference. */
  lemma StrayNoReference()
    ensures Reference !in Markers(StrayBody)
  {
    var cell := StrayCell;
    var row := StrayBody.children[0];
    assert FindLast(cell, Reference) == None by {
      assert LastAmong(cell, Reference, 1) == None;
    }
    assert FindLast(row, Reference) == None by {
      assert row.children == [RangeStart(1), cell, RangeEnd(1)];
      assert FindLast(RangeStart(1), Reference) == None && FindLast(RangeEnd(1), Reference) == None;
      assert LastAmong(row, Reference, 1) == None;
      assert LastAmong(row, Reference, 2) == None;
      assert LastAmong(row, Reference, 3) == None;
    }
    assert FindLast(StrayPara, Reference) == None by {
      assert LastAmong(StrayPara, Reference, 3) == None;
    }
    assert StrayBody.children == [row, StrayPara];
    assert LastAmong(StrayBody, Reference, 2) == None;
    FindLastIff(StrayBody, Reference);
  }

  /** Where the markers of the example sit. */
  lemma StrayMarkers()
    ensures RangeEnd(2) in Markers(StrayRow)
    ensures Reference !in Markers(StrayBody) && RangeStart(2) in Markers(StrayBody)
  {
    var cell := StrayCell;
    assert FindLast(cell, RangeEnd(2)).Some? by {
      assert FindLast(cell.children[0], RangeEnd(2)) == Some([]);
    }
    assert FindLast(StrayRow, RangeEnd(2)).Some? by {
      assert StrayRow.children[0] == cell;
    }
    FindLastIff(StrayRow, RangeEnd(2));
    assert FindLast(StrayPara, RangeStart(2)).Some? by {
      assert FindLast(StrayPara.children[0], RangeStart(2)) == Some([]);
      assert LastAmong(StrayPara, RangeStart(2), 1).Some?;
    }
    assert FindLast(StrayBody, RangeStart(2)).Some? by {
      assert StrayBody.children[1] == StrayPara;
    }
    FindLastIff(StrayBody, RangeStart(2));
    StrayNoReference();
  }

  /** The example row holds no start marker once the loop's are out. */
  lemma StrayRowStarts()
    ensures StartIds(StrayRow) == []
  {
    assert StrayCell.children[0] == RangeEnd(2) && StrayCell.children[1..] == [];
    assert StartIdsOf(StrayCell.children) == StartIds(RangeEnd(2)) + StartIdsOf([]) == [];
    assert StartIds(StrayCell) == [];
    assert StrayRow.children[0] == StrayCell && StrayRow.children[1..] == [];
    assert StartIdsOf(StrayRow.children) == StartIds(StrayCell) + StartIdsOf([]);
  }

  /**
   * In the example, the range of loop 1 holds an end marker with id 2, and
   * yet the loop goes through with 2 still pending, since the end marker
   * kept for 2 is the last one.
   */
  lemma StrayEndInRange()
    ensures && Anchored(StrayBody, [0, 0], [0, 2])
      && At(StrayBody, [0, 0]) == RangeStart(1) && At(StrayBody, [0, 2]) == RangeEnd(1)
      && Reference !in Markers(StrayBody) && RangeStart(2) in Markers(StrayBody)
      && CommonAncestor([0, 0], [0, 2]) == [0]
      && ValidPath(Unmark(StrayBody, [0, 0], [0, 2]), [0])
      && RangeEnd(2) in Markers(At(Unmark(StrayBody, [0, 0], [0, 2]), [0]))
      && Loop(map[], map[], [], StrayBody, 1, [0, 0], [0, 2], [], [2]).Ok?
      && Loop(map[], map[], [], StrayBody, 1, [0, 0], [0, 2], [], [2]).value.1 == [2]
  {
    StrayUnmark();
    StrayLastEnd();
    StrayMarkers();
    var t2 := Element("w:body", [StrayRow, StrayPara]);
    assert At(StrayBody, [0, 0]) == RangeStart(1) && At(StrayBody, [0, 2]) == RangeEnd(1);
    assert CommonAncestor([0, 0], [0, 2]) == [0];
    assert At(t2, [0]) == StrayRow;
    StrayRowStarts();
    assert Without([2], []) == [2];
    assert !EndsUnder(t2, 2, [0]);
    assert FirstCrossing([2], t2, [0]) == None;
    LoopSplices(map[], map[], [], StrayBody, 1, [0, 0], [0, 2], [], [2]);
  }

  /** Splicing rendered copies in for a range keeps every marker the range did not hold. */
  lemma SpliceCopies(t: Node, c: Path, copies: seq<Node>)
    requires ValidPath(t, c) && |c| > 0 && Reference !in Markers(t)
    requires forall k :: 0 <= k < |copies| ==>
      Height(copies[k]) <= Height(At(t, c)) && Reference !in Markers(copies[k])
    ensures Splice(t, c, copies).Element?
    ensures Height(Splice(t, c, copies)) <= Height(t)
    ensures Reference !in Markers(Splice(t, c, copies))
    ensures forall m :: m in Markers(t) && m !in Markers(At(t, c)) ==> m in Markers(Splice(t, c, copies))
  {
    SpliceHeight(t, c, copies);
    MarkersOfAbsent(copies, Reference);
    SpliceMarkers(t, c, copies, Reference);
    forall m | m in Markers(t) && m !in Markers(At(t, c)) ensures m in Markers(Splice(t, c, copies)) {
      SpliceMarkers(t, c, copies, m);
    }
  }

  /**
   * Once the references are out, every id listed for the level still has
   * its start marker; no reference is left and the tree is no higher.
   */
  lemma Stripped(t: Node)
    requires t.Element?
    ensures var tree := StripReferences(t);
      && tree.Element? && Height(tree) <= Height(t) && Reference !in Markers(tree)
      && forall y :: y in StartIds(t) ==> RangeStart(y) in Markers(tree)
  {
    StripMarkers(t);
    StripHeight(t);
    forall y | y in StartIds(t) ensures RangeStart(y) in Markers(StripReferences(t)) {
      StartIdsMarkers(t, y);
    }
  }

  // ---------------------------------------------------------------------------
  // What a level renders, as a function of the level's scope

  /**
   * What handling one comment leaves: a fragment that is still an element,
   * no higher and free of references, and a shorter list of distinct pending
   * ids that all still have their start markers.
   */
  predicate Advances(t: Node, pending: seq<int>, next: Node, rest: seq<int>) {
    && next.Element? && Height(next) <= Height(t) && Reference !in Markers(next)
    && |rest| <= |pending| && Distinct(rest)
    && forall y :: y in rest ==> y in pending && RangeStart(y) in Markers(next)
  }

  /** Filling a value keeps the level's invariant, the pending ids unchanged. */
  lemma FillAdvances(t: Node, id: int, s: Path, e: Path, data: Value, pending: seq<int>)
    requires ValidPath(t, s) && At(t, s) == RangeStart(id) && ValidPath(t, e) && At(t, e) == RangeEnd(id)
    requires t.Element? && Reference !in Markers(t) && Distinct(pending)
    requires id !in pending && forall y :: y in pending ==> RangeStart(y) in Markers(t)
    ensures Anchored(t, s, e)
    ensures Advances(t, pending, Fill(t, s, e, FoundRun(t, s, e), data), pending)
  {
    var w := FoundRun(t, s, e);
    FillFacts(t, s, e, w, data, Reference);
    forall y | y in pending ensures RangeStart(y) in Markers(Fill(t, s, e, w, data)) {
      FillFacts(t, s, e, w, data, RangeStart(y));
    }
  }

  /**
   * A level in the scope `scope` (its data, innermost first): comment 0 must
   * resolve; the references go; then each comment with a start marker is
   * handled in the order of the start markers, each id once.
   */
  function Level(functions: map<string, Handler>, comments: map<int, Token>, scope: seq<Value>, t: Node)
    : (r: Result<Node, RenderError>)
    requires t.Element?
    ensures r.Ok? ==> r.value.Element? && Height(r.value) <= Height(t) && Reference !in Markers(r.value)
    decreases Height(t), 3, 0
  {
    match Resolution(functions, comments, 0, scope)
    case Err(cause) => Err(Unresolved(cause))
    case Ok(_) =>
      Stripped(t);
      Comments(functions, comments, scope, StripReferences(t), Dedup(StartIds(t)))
  }

  /** The pending comments handled in turn; the first failure ends the level. */
  function Comments(functions: map<string, Handler>, comments: map<int, Token>, scope: seq<Value>, t: Node, pending: seq<int>)
    : (r: Result<Node, RenderError>)
    requires t.Element? && Reference !in Markers(t) && Distinct(pending)
    requires forall y :: y in pending ==> RangeStart(y) in Markers(t)
    ensures r.Ok? ==> r.value.Element? && Height(r.value) <= Height(t) && Reference !in Markers(r.value)
    decreases Height(t), 2, |pending|
  {
    if |pending| == 0 then Ok(t)
    else
      match Comment(functions, comments, scope, t, pending[0], pending[1..])
      case Err(cause) => Err(cause)
      case Ok((next, rest)) => Comments(functions, comments, scope, next, rest)
  }

  /**
   * One comment: it must resolve, and its end marker must be there; a value
   * is filled in between the last start marker and the last end marker, a
   * loop repeats the range they enclose.
   */
  function Comment(
    functions: map<string, Handler>, comments: map<int, Token>, scope: seq<Value>,
    t: Node, id: int, pending: seq<int>)
    : (r: Result<(Node, seq<int>), RenderError>)
    requires t.Element? && Reference !in Markers(t)
    requires Distinct(pending) && id !in pending && RangeStart(id) in Markers(t)
    requires forall y :: y in pending ==> RangeStart(y) in Markers(t)
    ensures r.Ok? ==> Advances(t, pending, r.value.0, r.value.1)
    decreases Height(t), 1, 0
  {
    match Resolution(functions, comments, id, scope)
    case Err(cause) => Err(Unresolved(cause))
    case Ok(outcome) =>
      FindLastIff(t, RangeStart(id));
      var s := FindLast(t, RangeStart(id)).value;
      match FindLast(t, RangeEnd(id))
      case None => Err(MissingEnd(id))
      case Some(e) =>
        match outcome
        case Fills(data) =>
          FillAdvances(t, id, s, e, data, pending);
          Ok((Fill(t, s, e, FoundRun(t, s, e), data), pending))
        case Repeats(items) => Loop(functions, comments, scope, t, id, s, e, items, pending)
  }

  /**
   * A loop: the markers go, and so do the pending ids of the start markers
   * inside the range; a range that is the fragment root, or that holds the
   * last end marker of a comment still pending, fails; otherwise the range
   * root is replaced by its copies.
   */
  function Loop(
    functions: map<string, Handler>, comments: map<int, Token>, scope: seq<Value>,
    t: Node, id: int, s: Path, e: Path, items: seq<Value>, pending: seq<int>)
    : (r: Result<(Node, seq<int>), RenderError>)
    requires ValidPath(t, s) && At(t, s) == RangeStart(id) && ValidPath(t, e) && At(t, e) == RangeEnd(id)
    requires t.Element? && Reference !in Markers(t)
    requires Distinct(pending) && id !in pending
    requires forall y :: y in pending ==> RangeStart(y) in Markers(t)
    ensures r.Ok? ==> Advances(t, pending, r.value.0, r.value.1)
    decreases Height(t), 0, 0
  {
    assert Anchored(t, s, e);
    RangeFacts(t, s, e, id, pending);
    var c := CommonAncestor(s, e);
    var t2 := Unmark(t, s, e);
    var range := At(t2, c);
    var rest := Without(pending, StartIds(range));
    if |c| == 0 then Err(RootRange(id))
    else
      match FirstCrossing(rest, t2, c)
      case Some(y) => Err(CrossingRange(y))
      case None =>
        match Copies(functions, comments, scope, range, items)
        case Err(cause) => Err(cause)
        case Ok(copies) =>
          SpliceCopies(t2, c, copies);
          Ok((Splice(t2, c, copies), rest))
  }

  /**
   * The copies of a range root, one per item in order: copy `k` is the
   * range root rendered as a level whose scope is item `k` inside `scope`.
   */
  function Copies(functions: map<string, Handler>, comments: map<int, Token>, scope: seq<Value>, range: Node, items: seq<Value>)
    : (r: Result<seq<Node>, RenderError>)
    requires range.Element?
    ensures r.Ok? ==> |r.value| == |items| && forall k :: 0 <= k < |items| ==>
      && Level(functions, comments, [items[k]] + scope, range) == Ok(r.value[k])
      && Height(r.value[k]) <= Height(range) && Reference !in Markers(r.value[k])
    decreases Height(range), 4, |items|
  {
    if |items| == 0 then Ok([])
    else
      match Copies(functions, comments, scope, range, items[..|items| - 1])
      case Err(cause) => Err(cause)
      case Ok(front) =>
        match Level(functions, comments, [items[|items| - 1]] + scope, range)
        case Err(cause) => Err(cause)
        case Ok(copy) => Ok(front + [copy])
  }

  /** The copies all render exactly when every item's level does. */
  lemma {:induction false} CopiesOkIff(
    functions: map<string, Handler>, comments: map<int, Token>, scope: seq<Value>, range: Node, items: seq<Value>)
    requires range.Element?
    ensures Copies(functions, comments, scope, range, items).Ok? <==>
      forall k :: 0 <= k < |items| ==> Level(functions, comments, [items[k]] + scope, range).Ok?
    decreases |items|
  {
    if |items| > 0 {
      var front := items[..|items| - 1];
      CopiesOkIff(functions, comments, scope, range, front);
      assert forall k :: 0 <= k < |front| ==> front[k] == items[k];
    }
  }

  /** When the copies fail, the failure is that of the first item whose level fails. */
  lemma {:induction false} CopiesFirstError(
    functions: map<string, Handler>, comments: map<int, Token>, scope: seq<Value>, range: Node, items: seq<Value>)
    returns (k: nat)
    requires range.Element? && Copies(functions, comments, scope, range, items).Err?
    ensures k < |items|
    ensures Level(functions, comments, [items[k]] + scope, range) == Err(Copies(functions, comments, scope, range, items).error)
    ensures forall j :: 0 <= j < k ==> Level(functions, comments, [items[j]] + scope, range).Ok?
    decreases |items|
  {
    var front := items[..|items| - 1];
    var last := |items| - 1;
    if Copies(functions, comments, scope, range, front).Err? {
      k := CopiesFirstError(functions, comments, scope, range, front);
      assert forall j :: 0 <= j <= k ==> front[j] == items[j];
    } else {
      k := last;
      assert forall j :: 0 <= j < last ==> front[j] == items[j];
    }
  }

  /** Once a first stretch of the items fails, the loop stops with that failure. */
  lemma {:induction false} CopiesPrefixError(
    functions: map<string, Handler>, comments: map<int, Token>, scope: seq<Value>, range: Node, items: seq<Value>, n: nat)
    requires range.Element? && n <= |items|
    requires Copies(functions, comments, scope, range, items[..n]).Err?
    ensures Copies(functions, comments, scope, range, items) == Copies(functions, comments, scope, range, items[..n])
    decreases |items| - n
  {
    if n < |items| {
      assert items[..n + 1][..n] == items[..n];
      CopiesPrefixError(functions, comments, scope, range, items, n + 1);
    } else {
      assert items[..n] == items;
    }
  }

  /** One more item rendered: its copy goes at the end. */
  lemma CopiesStep(
    functions: map<string, Handler>, comments: map<int, Token>, scope: seq<Value>, range: Node, items: seq<Value>,
    n: nat, front: seq<Node>, copy: Node)
    requires range.Element? && n < |items|
    requires Copies(functions, comments, scope, range, items[..n]) == Ok(front)
    requires Level(functions, comments, [items[n]] + scope, range) == Ok(copy)
    ensures Copies(functions, comments, scope, range, items[..n + 1]) == Ok(front + [copy])
  {
    assert items[..n + 1][..n] == items[..n];
  }

  /** An item whose level fails ends the loop with that failure. */
  lemma CopiesStop(
    functions: map<string, Handler>, comments: map<int, Token>, scope: seq<Value>, range: Node, items: seq<Value>,
    n: nat, front: seq<Node>, cause: RenderError)
    requires range.Element? && n < |items|
    requires Copies(functions, comments, scope, range, items[..n]) == Ok(front)
    requires Level(functions, comments, [items[n]] + scope, range) == Err(cause)
    ensures Copies(functions, comments, scope, range, items) == Err(cause)
  {
    assert items[..n + 1][..n] == items[..n];
    CopiesPrefixError(functions, comments, scope, range, items, n + 1);
  }

  /**
   * A loop fails for a range that is the fragment root or that holds the last
   * end marker of a pending comment, or with the first copy that fails; when it
   * succeeds, the range root of the unmarked fragment is replaced by the
   * copies, and the ids of start markers inside the range are no longer
   * pending.
   */
  lemma LoopSplices(
    functions: map<string, Handler>, comments: map<int, Token>, scope: seq<Value>,
    t: Node, id: int, s: Path, e: Path, items: seq<Value>, pending: seq<int>)
    requires ValidPath(t, s) && At(t, s) == RangeStart(id) && ValidPath(t, e) && At(t, e) == RangeEnd(id)
    requires t.Element? && Reference !in Markers(t)
    requires Distinct(pending) && id !in pending
    requires forall y :: y in pending ==> RangeStart(y) in Markers(t)
    ensures Anchored(t, s, e)
    ensures ValidPath(Unmark(t, s, e), CommonAncestor(s, e)) && At(Unmark(t, s, e), CommonAncestor(s, e)).Element?
    ensures var c := CommonAncestor(s, e);
      var t2 := Unmark(t, s, e);
      var range := At(t2, c);
      var rest := Without(pending, StartIds(range));
      var r := Loop(functions, comments, scope, t, id, s, e, items, pending);
      && (r.Ok? <==> (|c| > 0 && FirstCrossing(rest, t2, c).None? &&
            forall k :: 0 <= k < |items| ==> Level(functions, comments, [items[k]] + scope, range).Ok?))
      && (|c| == 0 ==> r == Err(RootRange(id)))
      && (|c| > 0 && FirstCrossing(rest, t2, c).Some? ==> r == Err(CrossingRange(FirstCrossing(rest, t2, c).value)))
      && (r.Ok? ==> (Copies(functions, comments, scope, range, items).Ok? &&
            r.value == (Splice(t2, c, Copies(functions, comments, scope, range, items).value), rest)))
  {
    assert Anchored(t, s, e);
    RangeFacts(t, s, e, id, pending);
    CopiesOkIff(functions, comments, scope, At(Unmark(t, s, e), CommonAncestor(s, e)), items);
  }

  /**
   * A value comment takes out one start marker and one end marker with its
   * id and leaves the pending ids as they were; the `w:t` the walk found, if
   * any, then holds just the value.
   */
  lemma CommentFills(
    functions: map<string, Handler>, comments: map<int, Token>, scope: seq<Value>,
    t: Node, id: int, pending: seq<int>)
    requires t.Element? && Reference !in Markers(t)
    requires Distinct(pending) && id !in pending && RangeStart(id) in Markers(t)
    requires forall y :: y in pending ==> RangeStart(y) in Markers(t)
    requires Resolution(functions, comments, id, scope).Ok? && Resolution(functions, comments, id, scope).value.Fills?
    requires RangeEnd(id) in Markers(t)
    ensures var data := Resolution(functions, comments, id, scope).value.data;
      var r := Comment(functions, comments, scope, t, id, pending);
      && r.Ok? && r.value.1 == pending
      && Markers(r.value.0)[RangeStart(id)] == Markers(t)[RangeStart(id)] - 1
      && Markers(r.value.0)[RangeEnd(id)] == Markers(t)[RangeEnd(id)] - 1
      && (FindLast(t, RangeStart(id)).Some? && FindLast(t, RangeEnd(id)).Some? &&
          FoundRun(t, FindLast(t, RangeStart(id)).value, FindLast(t, RangeEnd(id)).value).Some? ==>
            exists q :: ValidPath(r.value.0, q) && At(r.value.0, q) == TextRun([data]))
  {
    FindLastIff(t, RangeStart(id));
    FindLastIff(t, RangeEnd(id));
    var s := FindLast(t, RangeStart(id)).value;
    var e := FindLast(t, RangeEnd(id)).value;
    var data := Resolution(functions, comments, id, scope).value.data;
    var w := FoundRun(t, s, e);
    assert Anchored(t, s, e);
    FillFacts(t, s, e, w, data, RangeStart(id));
    FillFacts(t, s, e, w, data, RangeEnd(id));
    if w.Some? {
      FillHoldsValue(t, s, e, w.value, data);
    }
  }

  // ---------------------------------------------------------------------------
  // The renderer

  /** A detached XML fragment that a level rewrites in place. */
  class Fragment {
    var root: Node

    constructor (root: Node)
      ensures this.root == root
    {
      this.root := root;
    }
  }

  class DocTemplater {
    const resolver: CommentsResolver

    constructor (resolver: CommentsResolver)
      ensures this.resolver == resolver
    {
      this.resolver := resolver;
    }

    /**
     * `renderLevel`: comment 0 is resolved first; every comment reference
     * is dropped; then each comment with a start marker is handled in turn,
     * the ids inside a repeated range being left to the copies' own levels.
     * The fragment becomes what `Level` renders in the scope's data; the
     * scope caches stay true whatever the outcome.
     */
    method RenderLevel(ctx: Context, xml: Fragment) returns (r: Result<(), RenderError>)
      requires ctx.Valid() && xml.root.Element?
      modifies xml, ctx.Repr()
      ensures ctx.Valid() && xml.root.Element?
      ensures Height(xml.root) <= old(Height(xml.root))
      ensures r.Ok? ==> Level(resolver.functions, resolver.comments, ctx.Values(), old(xml.root)) == Ok(xml.root)
      ensures r.Err? ==> Level(resolver.functions, resolver.comments, ctx.Values(), old(xml.root)) == Err(r.error)
      decreases Height(xml.root), 3
    {
      var first := resolver.Resolve(0, ctx);
      if first.Err? {
        return Err(Unresolved(first.error));
      }
      var ids := Dedup(StartIds(xml.root));
      var tree := StripReferences(xml.root);
      Stripped(xml.root);
      ghost var functions, scope := resolver.functions, ctx.Values();
      ghost var total := Comments(functions, resolver.comments, scope, tree, ids);

      var pending := ids;
      r := Ok(());
      while r.Ok? && |pending| > 0
        invariant ctx.Valid() && tree.Element? && resolver.functions == functions
        invariant Height(tree) <= old(Height(xml.root))
        invariant Reference !in Markers(tree)
        invariant Distinct(pending)
        invariant forall y :: y in pending ==> RangeStart(y) in Markers(tree)
        invariant r.Ok? ==> Comments(functions, resolver.comments, scope, tree, pending) == total
        invariant r.Err? ==> total == Err(r.error)
        decreases |pending|
      {
        var id := pending[0];
        pending := pending[1..];
        r, tree, pending := RenderComment(ctx, tree, id, pending);
      }
      label rendered:
      xml.root := tree;
      assert unchanged@rendered(ctx.Repr());
    }

    /**
     * One comment of the level: resolved against the level's scope, then
     * handled as a value or as a loop; a comment with no end marker fails.
     */
    method RenderComment(ctx: Context, tree: Node, id: int, pending: seq<int>)
      returns (r: Result<(), RenderError>, next: Node, rest: seq<int>)
      requires ctx.Valid() && tree.Element? && Reference !in Markers(tree)
      requires Distinct(pending) && id !in pending && RangeStart(id) in Markers(tree)
      requires forall y :: y in pending ==> RangeStart(y) in Markers(tree)
      modifies ctx.Repr()
      ensures ctx.Valid() && Advances(tree, pending, next, rest)
      ensures r.Ok? ==> Comment(resolver.functions, resolver.comments, ctx.Values(), tree, id, pending) == Ok((next, rest))
      ensures r.Err? ==> Comment(resolver.functions, resolver.comments, ctx.Values(), tree, id, pending) == Err(r.error)
      decreases Height(tree), 2
    {
      next, rest := tree, pending;
      var resolved := resolver.Resolve(id, ctx);
      FindLastIff(tree, RangeStart(id));
      var found := FindLast(tree, RangeEnd(id));
      if resolved.Err? {
        r := Err(Unresolved(resolved.error));
      } else if found.None? {
        r := Err(MissingEnd(id));
      } else if resolved.value.Data? {
        r := Ok(());
        var s := FindLast(tree, RangeStart(id)).value;
        label filling:
        next := FillComment(tree, id, s, found.value, resolved.value.data, pending);
        assert unchanged@filling(ctx.Repr());
      } else {
        var s := FindLast(tree, RangeStart(id)).value;
        r, next, rest := Repeat(ctx, tree, id, s, found.value, resolved.value.contexts, pending);
      }
    }

    /**
     * The value case: the walk from the start marker towards the end marker
     * looks for a `w:t`; the one found holds just the value; both markers go.
     */
    method FillComment(t: Node, id: int, s: Path, e: Path, data: Value, pending: seq<int>) returns (next: Node)
      requires ValidPath(t, s) && At(t, s) == RangeStart(id) && ValidPath(t, e) && At(t, e) == RangeEnd(id)
      requires t.Element? && Reference !in Markers(t)
      requires Distinct(pending) && id !in pending && forall y :: y in pending ==> RangeStart(y) in Markers(t)
      ensures next == Fill(t, s, e, FoundRun(t, s, e), data)
      ensures Advances(t, pending, next, pending)
    {
      FillAdvances(t, id, s, e, data, pending);
      var w := WalkToRun(t, s, e);
      next := Fill(t, s, e, w, data);
    }

    /**
     * The loop case: the deepest node enclosing both markers is the range
     * root; the markers go, and so do the pending ids of the start markers
     * in the range; then the range root is replaced by one rendered copy
     * per scope.
     */
    method Repeat(ctx: Context, t: Node, id: int, s: Path, e: Path, scopes: seq<Context>, pending: seq<int>)
      returns (r: Result<(), RenderError>, next: Node, rest: seq<int>)
      requires ctx.Valid() && ValidPath(t, s) && At(t, s) == RangeStart(id) && ValidPath(t, e) && At(t, e) == RangeEnd(id)
      requires t.Element? && Reference !in Markers(t)
      requires Distinct(pending) && id !in pending
      requires forall y :: y in pending ==> RangeStart(y) in Markers(t)
      requires forall i, j :: 0 <= i < j < |scopes| ==> scopes[i] != scopes[j]
      requires forall i :: 0 <= i < |scopes| ==>
        && scopes[i] !in ctx.Repr() && scopes[i].Chain() && scopes[i].parent == ctx
        && scopes[i].Ancestors == ctx.Repr() && scopes[i].cache == map[]
      modifies ctx.Repr(), scopes
      ensures ctx.Valid() && Advances(t, pending, next, rest)
      ensures r.Ok? ==>
        Loop(resolver.functions, resolver.comments, ctx.Values(), t, id, s, e, Currents(scopes), pending) == Ok((next, rest))
      ensures r.Err? ==>
        Loop(resolver.functions, resolver.comments, ctx.Values(), t, id, s, e, Currents(scopes), pending) == Err(r.error)
      decreases Height(t), 1
    {
      assert Anchored(t, s, e);
      var c := RangeRoot(s, e);
      var t2 := Unmark(t, s, e);
      RangeFacts(t, s, e, id, pending);
      var range := At(t2, c);
      rest := Prune(pending, StartIds(range));
      assert unchanged(ctx.Repr());
      var crossing := FirstCrossing(rest, t2, c);
      next := t2;
      if |c| == 0 {
        r := Err(RootRange(id));
      } else if crossing.Some? {
        r := Err(CrossingRange(crossing.value));
      } else {
        var copies := RenderCopies(ctx, range, scopes);
        if copies.Err? {
          r := Err(copies.error);
        } else {
          SpliceCopies(t2, c, copies.value);
          next := Splice(t2, c, copies.value);
          r := Ok(());
        }
      }
    }

    /**
     * Each scope renders its own copy of the range root, in order; the
     * first copy that fails stops the loop.
     */
    method RenderCopies(ctx: Context, template: Node, scopes: seq<Context>) returns (r: Result<seq<Node>, RenderError>)
      requires ctx.Valid() && template.Element?
      requires forall i, j :: 0 <= i < j < |scopes| ==> scopes[i] != scopes[j]
      requires forall i :: 0 <= i < |scopes| ==>
        && scopes[i] !in ctx.Repr() && scopes[i].Chain() && scopes[i].parent == ctx
        && scopes[i].Ancestors == ctx.Repr() && scopes[i].cache == map[]
      modifies ctx.Repr(), scopes
      ensures ctx.Valid()
      ensures r.Ok? ==> Copies(resolver.functions, resolver.comments, ctx.Values(), template, Currents(scopes)) == Ok(r.value)
      ensures r.Err? ==> Copies(resolver.functions, resolver.comments, ctx.Values(), template, Currents(scopes)) == Err(r.error)
      decreases Height(template), 5
    {
      ghost var items := Currents(scopes);
      ghost var functions, scope := resolver.functions, ctx.Values();
      var rendered: seq<Node> := [];
      while |rendered| < |scopes|
        invariant ctx.Valid() && resolver.functions == functions
        invariant |rendered| <= |scopes|
        invariant forall k :: |rendered| <= k < |scopes| ==> scopes[k].cache == map[]
        invariant Copies(functions, resolver.comments, scope, template, items[..|rendered|]) == Ok(rendered)
        decreases |scopes| - |rendered|
      {
        var n := |rendered|;
        var child := scopes[n];
        assert child.Valid();
        assert child.Values() == [items[n]] + scope;
        var copy := RenderCopy(child, template);
        if copy.Err? {
          CopiesStop(functions, resolver.comments, scope, template, items, n, rendered, copy.error);
          return Err(copy.error);
        }
        CopiesStep(functions, resolver.comments, scope, template, items, n, rendered, copy.value);
        rendered := rendered + [copy.value];
      }
      assert items[..|rendered|] == items;
      return Ok(rendered);
    }

    /** A fresh copy of the range root, rendered as a level of its own in `scope`. */
    method RenderCopy(scope: Context, template: Node) returns (r: Result<Node, RenderError>)
      requires scope.Valid() && template.Element?
      modifies scope.Repr()
      ensures scope.Valid()
      ensures r == Level(resolver.functions, resolver.comments, scope.Values(), template)
      decreases Height(template), 4
    {
      var copy := new Fragment(template);
      var done := RenderLevel(scope, copy);
      if done.Err? {
        return Err(done.error);
      }
      return Ok(copy.root);
    }
  }
}
