/**
 * The document tree that rendering rewrites: an ordered tree of XML nodes in
 * which `w:t` runs and the three comment markers are leaves. A node is
 * addressed by the path of child indexes that leads to it from the root.
 */
module Tree {
  import opened Values

  type Path = seq<nat>

  datatype Node =
    | Element(name: string, children: seq<Node>)  // any other element
    | TextRun(texts: seq<Value>)                  // `w:t`, holding its text nodes
    | Text(value: Value)                          // character data outside `w:t`
    | RangeStart(id: int)                         // `w:commentRangeStart`
    | RangeEnd(id: int)                           // `w:commentRangeEnd`
    | Reference                                   // `w:commentReference`

  predicate IsMarker(n: Node) {
    n.RangeStart? || n.RangeEnd? || n.Reference?
  }

  function Kids(t: Node): seq<Node> {
    if t.Element? then t.children else []
  }

  // ---------------------------------------------------------------------------
  // Paths

  predicate ValidPath(t: Node, p: Path)
    decreases |p|
  {
    |p| == 0 || (p[0] < |Kids(t)| && ValidPath(Kids(t)[p[0]], p[1..]))
  }

  function At(t: Node, p: Path): Node
    requires ValidPath(t, p)
    decreases |p|
  {
    if |p| == 0 then t else At(Kids(t)[p[0]], p[1..])
  }

  /** The node at `p` replaced by `n`. */
  function Replace(t: Node, p: Path, n: Node): Node
    requires ValidPath(t, p)
    decreases |p|
  {
    if |p| == 0 then n
    else t.(children := t.children[p[0] := Replace(t.children[p[0]], p[1..], n)])
  }

  /** The node at `p` replaced, in its parent's children, by the nodes `ns`. */
  function Splice(t: Node, p: Path, ns: seq<Node>): Node
    requires ValidPath(t, p) && |p| > 0
    decreases |p|
  {
    var i := p[0];
    if |p| == 1 then t.(children := t.children[..i] + ns + t.children[i + 1..])
    else t.(children := t.children[i := Splice(t.children[i], p[1..], ns)])
  }

  /** `removeChild`: the node at `p` taken out of its parent's children. */
  function Remove(t: Node, p: Path): Node
    requires ValidPath(t, p) && |p| > 0
  {
    Splice(t, p, [])
  }

  /** Every prefix of a path leads to a node: its ancestor. */
  lemma {:induction false} PrefixValid(t: Node, p: Path, n: nat)
    requires ValidPath(t, p) && n <= |p|
    ensures ValidPath(t, p[..n])
    decreases |p|
  {
    if n > 0 {
      PrefixValid(Kids(t)[p[0]], p[1..], n - 1);
      assert p[..n][1..] == p[1..][..n - 1];
    }
  }

  /** Splicing at `p` rewrites exactly the children of `p`'s parent. */
  lemma {:induction false} SpliceParent(t: Node, p: Path, ns: seq<Node>)
    requires ValidPath(t, p) && |p| > 0
    ensures var parent := p[..|p| - 1];
      var i := p[|p| - 1];
      var r := Splice(t, p, ns);
      && ValidPath(t, parent) && i < |Kids(At(t, parent))|
      && ValidPath(r, parent)
      && At(r, parent) == At(t, parent).(children := Kids(At(t, parent))[..i] + ns + Kids(At(t, parent))[i + 1..])
    decreases |p|
  {
    PrefixValid(t, p, |p| - 1);
    if |p| > 1 {
      var i := p[0];
      SpliceParent(t.children[i], p[1..], ns);
      assert p[1..][..|p| - 2] == p[..|p| - 1][1..];
      assert p[1..][|p| - 2] == p[|p| - 1];
    }
  }

  // ---------------------------------------------------------------------------
  // Markers

  /** The markers of a tree, counted. */
  function Markers(t: Node): multiset<Node>
    decreases t
  {
    if IsMarker(t) then multiset{t}
    else if t.Element? then MarkersOf(t.children)
    else multiset{}
  }

  function MarkersOf(ns: seq<Node>): multiset<Node>
    decreases ns
  {
    if |ns| == 0 then multiset{} else Markers(ns[0]) + MarkersOf(ns[1..])
  }

  lemma {:induction false} MarkersConcat(a: seq<Node>, b: seq<Node>)
    ensures MarkersOf(a + b) == MarkersOf(a) + MarkersOf(b)
    decreases |a|
  {
    if |a| == 0 {
      assert a + b == b;
    } else {
      assert (a + b)[0] == a[0] && (a + b)[1..] == a[1..] + b;
      MarkersConcat(a[1..], b);
    }
  }

  lemma MarkersUpdate(ns: seq<Node>, i: nat, x: Node, m: Node)
    requires i < |ns|
    ensures MarkersOf(ns[i := x])[m] + Markers(ns[i])[m] == MarkersOf(ns)[m] + Markers(x)[m]
  {
    assert ns == ns[..i] + [ns[i]] + ns[i + 1..];
    assert ns[i := x] == ns[..i] + [x] + ns[i + 1..];
    MarkersConcat(ns[..i] + [ns[i]], ns[i + 1..]);
    MarkersConcat(ns[..i], [ns[i]]);
    MarkersConcat(ns[..i] + [x], ns[i + 1..]);
    MarkersConcat(ns[..i], [x]);
    assert MarkersOf([x]) == Markers(x) by {
      assert [x][1..] == [];
    }
    assert MarkersOf([ns[i]]) == Markers(ns[i]) by {
      assert [ns[i]][1..] == [];
    }
  }

  lemma MarkersSplit(c: seq<Node>, i: nat, ns: seq<Node>, m: Node)
    requires i < |c|
    ensures MarkersOf(c[..i] + ns + c[i + 1..])[m] + Markers(c[i])[m] == MarkersOf(c)[m] + MarkersOf(ns)[m]
  {
    assert c == c[..i] + [c[i]] + c[i + 1..];
    MarkersConcat(c[..i] + [c[i]], c[i + 1..]);
    MarkersConcat(c[..i], [c[i]]);
    MarkersConcat(c[..i] + ns, c[i + 1..]);
    MarkersConcat(c[..i], ns);
    assert MarkersOf([c[i]]) == Markers(c[i]) by {
      assert [c[i]][1..] == [];
    }
  }

  /** Splicing trades the markers of the node taken out for those of the nodes put in. */
  lemma {:induction false} SpliceMarkers(t: Node, p: Path, ns: seq<Node>, m: Node)
    requires ValidPath(t, p) && |p| > 0
    ensures Markers(Splice(t, p, ns))[m] + Markers(At(t, p))[m] == Markers(t)[m] + MarkersOf(ns)[m]
    decreases |p|
  {
    var i := p[0];
    var c := t.children;
    assert t.Element? && Markers(t)[m] == MarkersOf(c)[m];
    var r := Splice(t, p, ns);
    if |p| == 1 {
      assert At(t, p) == c[i];
      assert r.Element? && Markers(r)[m] == MarkersOf(c[..i] + ns + c[i + 1..])[m];
      MarkersSplit(c, i, ns, m);
    } else {
      assert At(t, p) == At(c[i], p[1..]);
      SpliceMarkers(c[i], p[1..], ns, m);
      var x := Splice(c[i], p[1..], ns);
      assert r.Element? && Markers(r)[m] == MarkersOf(c[i := x])[m];
      MarkersUpdate(c, i, x, m);
    }
  }

  /** Replacing trades the markers of the old node for those of the new one. */
  lemma {:induction false} ReplaceMarkers(t: Node, p: Path, n: Node, m: Node)
    requires ValidPath(t, p)
    ensures Markers(Replace(t, p, n))[m] + Markers(At(t, p))[m] == Markers(t)[m] + Markers(n)[m]
    decreases |p|
  {
    if |p| > 0 {
      var i, c := p[0], t.children;
      assert t.Element? && Markers(t)[m] == MarkersOf(c)[m];
      assert At(t, p) == At(c[i], p[1..]);
      ReplaceMarkers(c[i], p[1..], n, m);
      var x := Replace(c[i], p[1..], n);
      var r := Replace(t, p, n);
      assert r == t.(children := c[i := x]);
      assert Markers(r)[m] == MarkersOf(c[i := x])[m];
      MarkersUpdate(c, i, x, m);
    }
  }

  /** Nodes none of which holds `m` hold no `m` between them. */
  lemma {:induction false} MarkersOfAbsent(ns: seq<Node>, m: Node)
    requires forall k :: 0 <= k < |ns| ==> m !in Markers(ns[k])
    ensures m !in MarkersOf(ns)
    decreases |ns|
  {
    if |ns| > 0 {
      MarkersOfAbsent(ns[1..], m);
    }
  }

  // ---------------------------------------------------------------------------
  // Finding a marker

  /** The path of the last node equal to `m` in document order. */
  function FindLast(t: Node, m: Node): (r: Option<Path>)
    requires IsMarker(m)
    ensures r.Some? ==> ValidPath(t, r.value) && At(t, r.value) == m
    decreases t, |Kids(t)| + 1
  {
    if t == m then Some([]) else LastAmong(t, m, |Kids(t)|)
  }

  /** The last node equal to `m` among the first `i` children's subtrees. */
  function LastAmong(t: Node, m: Node, i: nat): (r: Option<Path>)
    requires IsMarker(m) && i <= |Kids(t)|
    ensures r.Some? ==> |r.value| > 0 && r.value[0] < i && ValidPath(t, r.value) && At(t, r.value) == m
    decreases t, i
  {
    if i == 0 then None
    else
      match FindLast(Kids(t)[i - 1], m)
      case Some(q) =>
        assert ([i - 1] + q)[1..] == q;
        Some([i - 1] + q)
      case None => LastAmong(t, m, i - 1)
  }

  /** A marker is found exactly when the tree holds one. */
  lemma {:induction false} FindLastIff(t: Node, m: Node)
    requires IsMarker(m)
    ensures FindLast(t, m).Some? <==> m in Markers(t)
    decreases t, |Kids(t)| + 1
  {
    if t != m {
      LastAmongIff(t, m, |Kids(t)|);
      assert Kids(t)[..|Kids(t)|] == Kids(t);
    }
  }

  lemma {:induction false} LastAmongIff(t: Node, m: Node, i: nat)
    requires IsMarker(m) && i <= |Kids(t)| && t != m
    ensures LastAmong(t, m, i).Some? <==> m in MarkersOf(Kids(t)[..i])
    decreases t, i
  {
    if i > 0 {
      var ks := Kids(t);
      FindLastIff(ks[i - 1], m);
      LastAmongIff(t, m, i - 1);
      assert ks[..i] == ks[..i - 1] + [ks[i - 1]];
      MarkersConcat(ks[..i - 1], [ks[i - 1]]);
      assert MarkersOf([ks[i - 1]]) == Markers(ks[i - 1]) by {
        assert [ks[i - 1]][1..] == [];
      }
    }
  }

  // ---------------------------------------------------------------------------
  // Comment ids in document order

  /** The ids of the start markers below the root, in document order. */
  function StartIds(t: Node): seq<int>
    decreases t
  {
    if t.Element? then StartIdsOf(t.children) else []
  }

  function StartIdsOf(ns: seq<Node>): seq<int>
    decreases ns
  {
    if |ns| == 0 then []
    else (if ns[0].RangeStart? then [ns[0].id] else StartIds(ns[0])) + StartIdsOf(ns[1..])
  }

  /** An id is listed exactly when a start marker with it lies below an element root. */
  lemma {:induction false} StartIdsMarkers(t: Node, id: int)
    requires t.Element?
    ensures id in StartIds(t) <==> RangeStart(id) in Markers(t)
  {
    StartIdsOfMarkers(t.children, id);
  }

  lemma {:induction false} StartIdsOfMarkers(ns: seq<Node>, id: int)
    ensures id in StartIdsOf(ns) <==> RangeStart(id) in MarkersOf(ns)
    decreases ns
  {
    if |ns| > 0 {
      StartIdsOfMarkers(ns[1..], id);
      if ns[0].Element? {
        StartIdsMarkers(ns[0], id);
      }
    }
  }

  /** PHP `array_keys` of a map filled in this order: each id once, at its first occurrence. */
  function Dedup(xs: seq<int>): (ys: seq<int>)
    ensures forall x :: x in ys <==> x in xs
    ensures forall i, j :: 0 <= i < j < |ys| ==> ys[i] != ys[j]
    decreases |xs|
  {
    if |xs| == 0 then []
    else
      var front := Dedup(xs[..|xs| - 1]);
      assert forall x :: x in xs <==> x in xs[..|xs| - 1] || x == xs[|xs| - 1];
      if xs[|xs| - 1] in front then front else front + [xs[|xs| - 1]]
  }

  /** The position of the first occurrence of `x`. */
  function FirstIndex(xs: seq<int>, x: int): (k: nat)
    requires x in xs
    ensures k < |xs| && xs[k] == x && x !in xs[..k]
  {
    if xs[0] == x then 0
    else
      var k := 1 + FirstIndex(xs[1..], x);
      assert xs[..k] == [xs[0]] + xs[1..][..k - 1];
      k
  }

  /** A position holding `x` with no `x` before it is the first occurrence. */
  lemma FirstIndexAt(xs: seq<int>, x: int, k: nat)
    requires k < |xs| && xs[k] == x && x !in xs[..k]
    ensures FirstIndex(xs, x) == k
  {
  }

  /** The ids come out in the order of their first occurrences. */
  lemma {:induction false} DedupOrder(xs: seq<int>, i: nat, j: nat)
    requires i < j < |Dedup(xs)|
    ensures FirstIndex(xs, Dedup(xs)[i]) < FirstIndex(xs, Dedup(xs)[j])
    decreases |xs|
  {
    var n := |xs|;
    var f := xs[..n - 1];
    var front := Dedup(f);
    var ys := Dedup(xs);
    assert ys[i] in front;
    FirstIndexPrefix(xs, n - 1, ys[i]);
    if j < |front| {
      assert ys[j] == front[j] && ys[i] == front[i];
      DedupOrder(f, i, j);
      FirstIndexPrefix(xs, n - 1, ys[j]);
    } else {
      assert ys[j] == xs[n - 1] && ys[j] !in f;
      assert xs[..n - 1] == f;
      FirstIndexAt(xs, ys[j], n - 1);
    }
  }

  /** An element of a prefix is first met inside that prefix. */
  lemma FirstIndexPrefix(xs: seq<int>, m: nat, x: int)
    requires m <= |xs| && x in xs[..m]
    ensures FirstIndex(xs, x) == FirstIndex(xs[..m], x)
  {
    var k := FirstIndex(xs[..m], x);
    assert xs[..m][..k] == xs[..k];
    FirstIndexAt(xs, x, k);
  }

  // ---------------------------------------------------------------------------
  // Removing comment references

  /** Every `w:commentReference` below the root removed, with its subtree. */
  function StripReferences(t: Node): Node
    decreases t
  {
    if t.Element? then t.(children := StripAll(t.children)) else t
  }

  function StripAll(ns: seq<Node>): seq<Node>
    decreases ns
  {
    if |ns| == 0 then []
    else if ns[0].Reference? then StripAll(ns[1..])
    else [StripReferences(ns[0])] + StripAll(ns[1..])
  }

  /**
   * Stripping leaves no reference below an element root and keeps every
   * other marker.
   */
  lemma {:induction false} StripMarkers(t: Node)
    requires t.Element?
    ensures Reference !in Markers(StripReferences(t))
    ensures forall m :: m != Reference ==> Markers(StripReferences(t))[m] == Markers(t)[m]
  {
    StripAllMarkers(t.children);
  }

  lemma {:induction false} StripAllMarkers(ns: seq<Node>)
    ensures Reference !in MarkersOf(StripAll(ns))
    ensures forall m :: m != Reference ==> MarkersOf(StripAll(ns))[m] == MarkersOf(ns)[m]
    decreases ns
  {
    if |ns| > 0 {
      StripAllMarkers(ns[1..]);
      if !ns[0].Reference? {
        var s := [StripReferences(ns[0])] + StripAll(ns[1..]);
        assert s[0] == StripReferences(ns[0]) && s[1..] == StripAll(ns[1..]);
        if ns[0].Element? {
          StripMarkers(ns[0]);
        }
      }
    }
  }

  /** A tree without references is left as it is. */
  lemma {:induction false} StripNothing(t: Node)
    requires Reference !in Markers(t)
    ensures StripReferences(t) == t
    decreases t
  {
    if t.Element? {
      StripAllNothing(t.children);
    }
  }

  lemma {:induction false} StripAllNothing(ns: seq<Node>)
    requires Reference !in MarkersOf(ns)
    ensures StripAll(ns) == ns
    decreases ns
  {
    if |ns| > 0 {
      StripAllNothing(ns[1..]);
      StripNothing(ns[0]);
      assert ns == [ns[0]] + ns[1..];
    }
  }

  // ---------------------------------------------------------------------------
  // Height

  function Height(t: Node): nat
    decreases t
  {
    if t.Element? then 1 + MaxHeight(t.children) else 1
  }

  function MaxHeight(ns: seq<Node>): nat
    decreases ns
  {
    if |ns| == 0 then 0
    else
      var h := Height(ns[0]);
      var r := MaxHeight(ns[1..]);
      if h < r then r else h
  }

  lemma {:induction false} MaxHeightAt(ns: seq<Node>, i: nat)
    requires i < |ns|
    ensures Height(ns[i]) <= MaxHeight(ns)
    decreases |ns|
  {
    if i > 0 {
      MaxHeightAt(ns[1..], i - 1);
    }
  }

  lemma {:induction false} MaxHeightBound(ns: seq<Node>, h: nat)
    requires forall i :: 0 <= i < |ns| ==> Height(ns[i]) <= h
    ensures MaxHeight(ns) <= h
    decreases |ns|
  {
    if |ns| > 0 {
      MaxHeightBound(ns[1..], h);
    }
  }

  /** A node below the root is lower than the tree. */
  lemma {:induction false} AtHeight(t: Node, p: Path)
    requires ValidPath(t, p)
    ensures Height(At(t, p)) <= Height(t)
    ensures |p| > 0 ==> Height(At(t, p)) < Height(t)
    decreases |p|
  {
    if |p| > 0 {
      AtHeight(Kids(t)[p[0]], p[1..]);
      MaxHeightAt(Kids(t), p[0]);
    }
  }

  /** Splicing in nodes no higher than the one taken out does not raise the tree. */
  lemma {:induction false} SpliceHeight(t: Node, p: Path, ns: seq<Node>)
    requires ValidPath(t, p) && |p| > 0
    requires forall k :: 0 <= k < |ns| ==> Height(ns[k]) <= Height(At(t, p))
    ensures Height(Splice(t, p, ns)) <= Height(t)
    decreases |p|
  {
    var i := p[0];
    var c := t.children;
    var h := MaxHeight(c);
    if |p| == 1 {
      var d := c[..i] + ns + c[i + 1..];
      MaxHeightAt(c, i);
      assert At(t, p) == c[i];
      forall k | 0 <= k < |d| ensures Height(d[k]) <= h {
        if k < i {
          assert d[k] == c[k];
          MaxHeightAt(c, k);
        } else if k < i + |ns| {
          assert d[k] == ns[k - i];
        } else {
          assert d[k] == c[k - |ns| + 1];
          MaxHeightAt(c, k - |ns| + 1);
        }
      }
      MaxHeightBound(d, h);
    } else {
      SpliceHeight(c[i], p[1..], ns);
      var d := c[i := Splice(c[i], p[1..], ns)];
      MaxHeightAt(c, i);
      forall k | 0 <= k < |d| ensures Height(d[k]) <= h {
        MaxHeightAt(c, k);
      }
      MaxHeightBound(d, h);
    }
  }

  /** Replacing a node by one no higher does not raise the tree. */
  lemma {:induction false} ReplaceHeight(t: Node, p: Path, n: Node)
    requires ValidPath(t, p) && Height(n) <= Height(At(t, p))
    ensures Height(Replace(t, p, n)) <= Height(t)
    decreases |p|
  {
    if |p| > 0 {
      var i := p[0];
      var c := t.children;
      ReplaceHeight(c[i], p[1..], n);
      var d := c[i := Replace(c[i], p[1..], n)];
      MaxHeightAt(c, i);
      forall k | 0 <= k < |d| ensures Height(d[k]) <= MaxHeight(c) {
        MaxHeightAt(c, k);
      }
      MaxHeightBound(d, MaxHeight(c));
    }
  }

  /** Removing references does not raise the tree. */
  lemma {:induction false} StripHeight(t: Node)
    ensures Height(StripReferences(t)) <= Height(t)
    decreases t
  {
    if t.Element? {
      StripAllHeight(t.children);
    }
  }

  lemma {:induction false} StripAllHeight(ns: seq<Node>)
    ensures MaxHeight(StripAll(ns)) <= MaxHeight(ns)
    decreases ns
  {
    if |ns| > 0 {
      StripAllHeight(ns[1..]);
      if !ns[0].Reference? {
        StripHeight(ns[0]);
        assert ([StripReferences(ns[0])] + StripAll(ns[1..]))[1..] == StripAll(ns[1..]);
      }
    }
  }

  // ---------------------------------------------------------------------------
  // Document order

  /** Every node's path, in document order: a node, then its children's subtrees in turn. */
  function Preorder(t: Node): (ps: seq<Path>)
    ensures |ps| > 0 && ps[0] == []
    decreases t
  {
    if t.Element? then [[]] + PreorderOf(t.children, 0) else [[]]
  }

  function PreorderOf(ns: seq<Node>, base: nat): seq<Path>
    decreases ns
  {
    if |ns| == 0 then []
    else
      var sub := Preorder(ns[0]);
      seq(|sub|, k requires 0 <= k < |sub| => [base] + sub[k]) + PreorderOf(ns[1..], base + 1)
  }

  /** Every path the document order lists leads to a node. */
  lemma {:induction false} PreorderValid(t: Node, k: nat)
    requires k < |Preorder(t)|
    ensures ValidPath(t, Preorder(t)[k])
    decreases t, 1
  {
    if k > 0 {
      PreorderOfValid(t, Kids(t), 0, k - 1);
    }
  }

  lemma {:induction false} PreorderOfValid(t: Node, ns: seq<Node>, base: nat, k: nat)
    requires base + |ns| == |Kids(t)| && ns == Kids(t)[base..]
    requires k < |PreorderOf(ns, base)|
    ensures ValidPath(t, PreorderOf(ns, base)[k])
    decreases t, 0, |ns|
  {
    var sub := Preorder(ns[0]);
    var head := seq(|sub|, j requires 0 <= j < |sub| => [base] + sub[j]);
    assert PreorderOf(ns, base) == head + PreorderOf(ns[1..], base + 1);
    assert ns[0] == Kids(t)[base];
    if k < |sub| {
      var p := head[k];
      assert p == [base] + sub[k] && p[1..] == sub[k];
      PreorderValid(ns[0], k);
    } else {
      assert ns[1..] == Kids(t)[base + 1..];
      PreorderOfValid(t, ns[1..], base + 1, k - |sub|);
    }
  }

  /** Document order lists every node. */
  lemma {:induction false} PreorderComplete(t: Node, p: Path)
    requires ValidPath(t, p)
    ensures p in Preorder(t)
    decreases t, 1
  {
    if |p| > 0 {
      PreorderOfComplete(Kids(t), 0, p[0], p[1..]);
      assert [0 + p[0]] + p[1..] == p;
    }
  }

  lemma {:induction false} PreorderOfComplete(ns: seq<Node>, base: nat, j: nat, q: Path)
    requires j < |ns| && ValidPath(ns[j], q)
    ensures [base + j] + q in PreorderOf(ns, base)
    decreases ns
  {
    var sub := Preorder(ns[0]);
    var head := seq(|sub|, k requires 0 <= k < |sub| => [base] + sub[k]);
    assert PreorderOf(ns, base) == head + PreorderOf(ns[1..], base + 1);
    if j == 0 {
      PreorderComplete(ns[0], q);
      var k :| 0 <= k < |sub| && sub[k] == q;
      assert head[k] == [base + j] + q;
    } else {
      PreorderOfComplete(ns[1..], base + 1, j - 1, q);
      assert ns[1..][j - 1] == ns[j];
      assert base + 1 + (j - 1) == base + j;
    }
  }
  /** Every position after the first holds a path below the root. */
  lemma {:induction false} PreorderBelowRoot(t: Node, k: nat)
    requires 0 < k < |Preorder(t)|
    ensures |Preorder(t)[k]| > 0
  {
    PreorderOfBelow(Kids(t), 0, k - 1);
  }

  /** The paths of the children's subtrees start at or after the first child's index. */
  lemma {:induction false} PreorderOfBelow(ns: seq<Node>, base: nat, m: nat)
    requires m < |PreorderOf(ns, base)|
    ensures |PreorderOf(ns, base)[m]| > 0 && PreorderOf(ns, base)[m][0] >= base
    decreases ns
  {
    var sub := Preorder(ns[0]);
    var head := seq(|sub|, k requires 0 <= k < |sub| => [base] + sub[k]);
    assert PreorderOf(ns, base) == head + PreorderOf(ns[1..], base + 1);
    if m >= |sub| {
      PreorderOfBelow(ns[1..], base + 1, m - |sub|);
    }
  }

  /** Document order lists every path once. */
  lemma {:induction false} PreorderInjective(t: Node, i: nat, j: nat)
    requires i < |Preorder(t)| && j < |Preorder(t)| && Preorder(t)[i] == Preorder(t)[j]
    ensures i == j
    decreases t, 1
  {
    if i > 0 && j > 0 {
      PreorderOfInjective(Kids(t), 0, i - 1, j - 1);
    } else if i > 0 {
      PreorderBelowRoot(t, i);
    } else if j > 0 {
      PreorderBelowRoot(t, j);
    }
  }

  lemma {:induction false} PreorderOfInjective(ns: seq<Node>, base: nat, i: nat, j: nat)
    requires i < |PreorderOf(ns, base)| && j < |PreorderOf(ns, base)|
    requires PreorderOf(ns, base)[i] == PreorderOf(ns, base)[j]
    ensures i == j
    decreases ns
  {
    var sub := Preorder(ns[0]);
    var head := seq(|sub|, k requires 0 <= k < |sub| => [base] + sub[k]);
    var tail := PreorderOf(ns[1..], base + 1);
    assert PreorderOf(ns, base) == head + tail;
    if i < |sub| && j < |sub| {
      assert head[i][1..] == sub[i] && head[j][1..] == sub[j];
      PreorderInjective(ns[0], i, j);
    } else if i >= |sub| && j >= |sub| {
      PreorderOfInjective(ns[1..], base + 1, i - |sub|, j - |sub|);
    } else if i < |sub| {
      PreorderOfBelow(ns[1..], base + 1, j - |sub|);
    } else {
      PreorderOfBelow(ns[1..], base + 1, i - |sub|);
    }
  }

  /**
   * `p` comes strictly before `q` in document order: `p` is an ancestor of
   * `q`, or at the first index where they part, `p` takes an earlier child.
   */
  predicate Before(p: Path, q: Path)
    decreases |p|
  {
    |q| > 0 && (|p| == 0 || p[0] < q[0] || (p[0] == q[0] && Before(p[1..], q[1..])))
  }

  /** Document order is strict: no path comes before itself, or before a path that comes before it. */
  lemma {:induction false} BeforeStrict(p: Path, q: Path)
    requires Before(p, q)
    ensures p != q && !Before(q, p)
    decreases |p|
  {
    if |p| > 0 && p[0] == q[0] {
      BeforeStrict(p[1..], q[1..]);
    }
  }

  /** The order that `Preorder` lists is document order: each path comes before every later one. */
  lemma {:induction false} PreorderSorted(t: Node, i: nat, j: nat)
    requires i < j < |Preorder(t)|
    ensures Before(Preorder(t)[i], Preorder(t)[j])
    decreases t, 1
  {
    PreorderBelowRoot(t, j);
    if i > 0 {
      PreorderOfSorted(Kids(t), 0, i - 1, j - 1);
    }
  }

  lemma {:induction false} PreorderOfSorted(ns: seq<Node>, base: nat, i: nat, j: nat)
    requires i < j < |PreorderOf(ns, base)|
    ensures Before(PreorderOf(ns, base)[i], PreorderOf(ns, base)[j])
    decreases ns
  {
    var sub := Preorder(ns[0]);
    PreorderOfAt(ns, base, i);
    PreorderOfAt(ns, base, j);
    if j < |sub| {
      PreorderSorted(ns[0], i, j);
      assert ([base] + sub[i])[1..] == sub[i] && ([base] + sub[j])[1..] == sub[j];
    } else if i < |sub| {
      PreorderOfBelow(ns[1..], base + 1, j - |sub|);
    } else {
      PreorderOfSorted(ns[1..], base + 1, i - |sub|, j - |sub|);
    }
  }

  /** No node equal to `m` comes after the one `FindLast` finds. */
  lemma {:induction false} FindLastMax(t: Node, m: Node, p: Path)
    requires IsMarker(m) && ValidPath(t, p) && At(t, p) == m
    ensures FindLast(t, m).Some?
    ensures p == FindLast(t, m).value || Before(p, FindLast(t, m).value)
    decreases t, |Kids(t)| + 1
  {
    if t != m {
      LastAmongMax(t, m, |Kids(t)|, p);
    }
  }

  lemma {:induction false} LastAmongMax(t: Node, m: Node, i: nat, p: Path)
    requires IsMarker(m) && i <= |Kids(t)| && t != m
    requires ValidPath(t, p) && At(t, p) == m && |p| > 0 && p[0] < i
    ensures LastAmong(t, m, i).Some?
    ensures p == LastAmong(t, m, i).value || Before(p, LastAmong(t, m, i).value)
    decreases t, i
  {
    var child := Kids(t)[i - 1];
    if p[0] == i - 1 {
      FindLastMax(child, m, p[1..]);
      var q := FindLast(child, m).value;
      assert ([i - 1] + q)[1..] == q && p == [p[0]] + p[1..];
    } else {
      match FindLast(child, m)
      case Some(q) =>
      case None => LastAmongMax(t, m, i - 1, p);
    }
  }

  /**
   * `FindLast` finds the last node equal to `m` in document order: its
   * position in `Preorder` is at or after that of every node equal to `m`.
   */
  lemma FindLastIsLast(t: Node, m: Node, k: nat)
    requires IsMarker(m) && k < |Preorder(t)| && ValidPath(t, Preorder(t)[k]) && At(t, Preorder(t)[k]) == m
    ensures FindLast(t, m).Some? && FindLast(t, m).value in Preorder(t)
    ensures forall j :: 0 <= j < |Preorder(t)| && Preorder(t)[j] == FindLast(t, m).value ==> k <= j
  {
    var p := Preorder(t)[k];
    FindLastMax(t, m, p);
    var r := FindLast(t, m).value;
    PreorderComplete(t, r);
    forall j | 0 <= j < |Preorder(t)| && Preorder(t)[j] == r
      ensures k <= j
    {
      if j < k {
        PreorderSorted(t, j, k);
        BeforeStrict(r, p);
        if p != r {
          BeforeStrict(p, r);
        }
      }
    }
  }

  /** The ids of the start markers at the paths `ps`, in the order of `ps`. */
  function StartsAt(t: Node, ps: seq<Path>): seq<int>
    decreases |ps|
  {
    if |ps| == 0 then []
    else
      (if ValidPath(t, ps[0]) && At(t, ps[0]).RangeStart? then [At(t, ps[0]).id] else []) +
      StartsAt(t, ps[1..])
  }

  lemma {:induction false} StartsAtConcat(t: Node, a: seq<Path>, b: seq<Path>)
    ensures StartsAt(t, a + b) == StartsAt(t, a) + StartsAt(t, b)
    decreases |a|
  {
    if |a| > 0 {
      assert (a + b)[0] == a[0] && (a + b)[1..] == a[1..] + b;
      StartsAtConcat(t, a[1..], b);
    } else {
      assert a + b == b;
    }
  }

  /** Below child `c`, the start markers are those of the child's own paths. */
  lemma {:induction false} StartsAtChild(t: Node, c: nat, sub: seq<Path>)
    requires c < |Kids(t)|
    ensures StartsAt(t, seq(|sub|, k requires 0 <= k < |sub| => [c] + sub[k])) == StartsAt(Kids(t)[c], sub)
    decreases |sub|
  {
    if |sub| > 0 {
      var ps := seq(|sub|, k requires 0 <= k < |sub| => [c] + sub[k]);
      assert ps[0][1..] == sub[0];
      assert ps[1..] == seq(|sub| - 1, k requires 0 <= k < |sub| - 1 => [c] + sub[1..][k]);
      StartsAtChild(t, c, sub[1..]);
    }
  }

  /**
   * `StartIds` lists the ids of the start markers below the root in document
   * order: exactly the start markers met along `Preorder`, the root left out.
   */
  lemma {:induction false} StartIdsPreorder(t: Node)
    ensures StartIds(t) == StartsAt(t, Preorder(t)[1..])
    decreases t, 1
  {
    if t.Element? {
      assert Preorder(t)[1..] == PreorderOf(t.children, 0);
      StartIdsOfPreorder(t, t.children, 0);
    }
  }

  lemma {:induction false} StartIdsOfPreorder(t: Node, ns: seq<Node>, base: nat)
    requires base + |ns| == |Kids(t)| && ns == Kids(t)[base..]
    ensures StartsAt(t, PreorderOf(ns, base)) == StartIdsOf(ns)
    decreases t, 0, |ns|, 1
  {
    if |ns| > 0 {
      var sub := Preorder(ns[0]);
      var head := seq(|sub|, k requires 0 <= k < |sub| => [base] + sub[k]);
      assert PreorderOf(ns, base) == head + PreorderOf(ns[1..], base + 1);
      StartsAtConcat(t, head, PreorderOf(ns[1..], base + 1));
      StartsInChild(t, ns, base);
      assert ns[1..] == Kids(t)[base + 1..];
      StartIdsOfPreorder(t, ns[1..], base + 1);
    }
  }

  /** The start markers in the subtree of child `base`: the child itself, or those below it. */
  lemma {:induction false} StartsInChild(t: Node, ns: seq<Node>, base: nat)
    requires base + |ns| == |Kids(t)| && ns == Kids(t)[base..] && |ns| > 0
    ensures var sub := Preorder(ns[0]);
      StartsAt(t, seq(|sub|, k requires 0 <= k < |sub| => [base] + sub[k])) ==
        if ns[0].RangeStart? then [ns[0].id] else StartIds(ns[0])
    decreases t, 0, |ns|, 0
  {
    var c := ns[0];
    assert c == Kids(t)[base];
    var sub := Preorder(c);
    StartsAtChild(t, base, sub);
    assert sub == [sub[0]] + sub[1..];
    StartsAtConcat(c, [sub[0]], sub[1..]);
    StartIdsPreorder(c);
  }

  // ---------------------------------------------------------------------------
  // The steps of the value walk

  /** `firstChild`. */
  function FirstChild(t: Node, p: Path): Option<Path>
    requires ValidPath(t, p)
  {
    if |Kids(At(t, p))| > 0 then Some(p + [0]) else None
  }

  /** `nextSibling`; the root has none. */
  function NextSibling(t: Node, p: Path): (r: Option<Path>)
    requires ValidPath(t, p)
    ensures r.Some? ==> |r.value| == |p| && ValidPath(t, r.value)
  {
    if |p| == 0 then None
    else
      PrefixValid(t, p, |p| - 1);
      SiblingAfter(t, p[..|p| - 1], p[|p| - 1])
  }

  /** The child after child `i` of the node at `parent`, if there is one. */
  function SiblingAfter(t: Node, parent: Path, i: nat): (r: Option<Path>)
    requires ValidPath(t, parent)
    ensures r.Some? ==> |r.value| == |parent| + 1 && ValidPath(t, r.value)
  {
    if i + 1 < |Kids(At(t, parent))| then
      ChildValid(t, parent, i + 1);
      Some(parent + [i + 1])
    else None
  }

  /**
   * The climb: up through the parents until one has a next sibling, which
   * is taken; the root once none has.
   */
  function Climb(t: Node, p: Path): (r: Path)
    requires ValidPath(t, p) && |p| > 0
    ensures ValidPath(t, r)
    decreases |p|
  {
    var parent := p[..|p| - 1];
    PrefixValid(t, p, |p| - 1);
    if |parent| == 0 then []
    else if NextSibling(t, parent).Some? then NextSibling(t, parent).value
    else Climb(t, parent)
  }

  /**
   * One step of the walk: the first child, else the next sibling, else the
   * climb; None (the walk breaks off) at a root without children.
   */
  function Next(t: Node, p: Path): (r: Option<Path>)
    requires ValidPath(t, p)
  {
    if FirstChild(t, p).Some? then FirstChild(t, p)
    else if NextSibling(t, p).Some? then NextSibling(t, p)
    else if |p| > 0 then Some(Climb(t, p))
    else None
  }

  /** A child's index followed by a valid path in the child. */
  lemma ChildValid(t: Node, p: Path, i: nat)
    requires ValidPath(t, p) && i < |Kids(At(t, p))|
    ensures ValidPath(t, p + [i]) && At(t, p + [i]) == Kids(At(t, p))[i]
    decreases |p|
  {
    if |p| > 0 {
      assert (p + [i])[1..] == p[1..] + [i];
      ChildValid(Kids(t)[p[0]], p[1..], i);
    }
  }

  /** A path below child `j` is the child's own path behind `j`. */
  lemma Below(t: Node, j: nat, q: Path)
    requires j < |Kids(t)| && ValidPath(Kids(t)[j], q)
    ensures ValidPath(t, [j] + q) && At(t, [j] + q) == At(Kids(t)[j], q)
  {
    assert ([j] + q)[0] == j && ([j] + q)[1..] == q;
  }

  /** A next sibling below child `j` is the child's own next sibling. */
  lemma SiblingBelow(t: Node, j: nat, q: Path)
    requires j < |Kids(t)| && ValidPath(Kids(t)[j], q) && |q| > 0
    ensures ValidPath(t, [j] + q)
    ensures NextSibling(t, [j] + q).Some? == NextSibling(Kids(t)[j], q).Some?
    ensures NextSibling(t, [j] + q).Some? ==> NextSibling(t, [j] + q).value == [j] + NextSibling(Kids(t)[j], q).value
  {
    var pq := q[..|q| - 1];
    PrefixValid(Kids(t)[j], q, |q| - 1);
    Below(t, j, q);
    var p := [j] + q;
    assert p[..|p| - 1] == [j] + pq;
    assert p[|p| - 1] == q[|q| - 1];
    SiblingAfterBelow(t, j, pq, q[|q| - 1]);
  }

  lemma SiblingAfterBelow(t: Node, j: nat, parent: Path, i: nat)
    requires j < |Kids(t)| && ValidPath(Kids(t)[j], parent)
    ensures ValidPath(t, [j] + parent)
    ensures SiblingAfter(t, [j] + parent, i).Some? == SiblingAfter(Kids(t)[j], parent, i).Some?
    ensures SiblingAfter(t, [j] + parent, i).Some? ==>
      SiblingAfter(t, [j] + parent, i).value == [j] + SiblingAfter(Kids(t)[j], parent, i).value
  {
    Below(t, j, parent);
    assert [j] + parent + [i + 1] == [j] + (parent + [i + 1]);
  }

  /** The climb from below child `j`: the child's climb, or on to the next child, or the root. */
  lemma {:induction false} ClimbBelow(t: Node, j: nat, q: Path)
    requires j < |Kids(t)| && ValidPath(Kids(t)[j], q) && |q| > 0
    ensures ValidPath(t, [j] + q) &&
      Climb(t, [j] + q) ==
        if Climb(Kids(t)[j], q) != [] then [j] + Climb(Kids(t)[j], q)
        else if j + 1 < |Kids(t)| then [j + 1] else []
    decreases |q|
  {
    var c := Kids(t)[j];
    var pq := q[..|q| - 1];
    PrefixValid(c, q, |q| - 1);
    Below(t, j, q);
    Below(t, j, pq);
    assert ([j] + q)[..|q|] == [j] + pq;
    if |pq| == 0 {
      assert NextSibling(t, [j]) == if j + 1 < |Kids(t)| then Some([j + 1]) else None by {
        assert [j][..0] == [] && [] + [j + 1] == [j + 1];
      }
      if j + 1 >= |Kids(t)| {
        assert [j][..0] == [];
      }
    } else {
      SiblingBelow(t, j, pq);
      if NextSibling(c, pq).None? {
        ClimbBelow(t, j, pq);
      }
    }
  }

  /** A step from below child `j`: the child's own step, unless that returns to the child itself or stops. */
  lemma NextBelow(t: Node, j: nat, q: Path)
    requires j < |Kids(t)| && ValidPath(Kids(t)[j], q)
    ensures ValidPath(t, [j] + q)
    ensures var c := Kids(t)[j];
      Next(t, [j] + q) ==
        Some(if Next(c, q).Some? && Next(c, q).value != [] then [j] + Next(c, q).value
             else if j + 1 < |Kids(t)| then [j + 1] else [])
  {
    var c := Kids(t)[j];
    Below(t, j, q);
    if FirstChild(c, q).None? {
      if |q| > 0 {
        SiblingBelow(t, j, q);
        if NextSibling(c, q).None? {
          ClimbBelow(t, j, q);
        }
      } else {
        assert [j] + q == [j] && [j][..0] == [];
        assert NextSibling(t, [j]) == if j + 1 < |Kids(t)| then Some([j + 1]) else None by {
          assert [] + [j + 1] == [j + 1];
        }
      }
    } else {
      assert Next(c, q) == Some(q + [0]);
      assert [j] + q + [0] == [j] + (q + [0]);
    }
  }

  /**
   * The step of the walk is document order: from the `k`-th node it reaches
   * the next one, and from the last node it climbs back to the root.
   */
  lemma {:induction false} NextPreorder(t: Node, k: nat)
    requires k < |Preorder(t)|
    ensures ValidPath(t, Preorder(t)[k])
    ensures var n := |Preorder(t)|;
      Next(t, Preorder(t)[k]) == if n == 1 then None else Some(Preorder(t)[if k + 1 == n then 0 else k + 1])
    decreases t, 1
  {
    PreorderValid(t, k);
    if k == 0 {
      NextOfRoot(t);
    } else {
      NextPreorderOf(t, t.children, 0, k - 1);
    }
  }

  /** From the root the walk goes to the first child, the second node in document order. */
  lemma NextOfRoot(t: Node)
    ensures var n := |Preorder(t)|;
      Next(t, []) == if n == 1 then None else Some(Preorder(t)[1])
  {
    if t.Element? && |t.children| > 0 {
      PreorderOfAt(t.children, 0, 0);
      assert Preorder(t)[1] == PreorderOf(t.children, 0)[0] == [0] + Preorder(t.children[0])[0];
      assert At(t, []) == t;
      assert Preorder(t.children[0])[0] == [] && [] + [0] == [0] + [] == [0];
      assert FirstChild(t, []) == Some([0]) && |Preorder(t)| > 1;
    }
  }

  lemma {:induction false} NextPreorderOf(t: Node, ns: seq<Node>, base: nat, m: nat)
    requires t.Element? && base + |ns| == |t.children| && ns == t.children[base..]
    requires m < |PreorderOf(ns, base)|
    ensures var po := PreorderOf(ns, base);
      ValidPath(t, po[m]) && Next(t, po[m]) == Some(if m + 1 < |po| then po[m + 1] else [])
    decreases t, 0, |ns|
  {
    var n0 := |Preorder(ns[0])|;
    assert ns[0] == t.children[base];
    if m < n0 {
      NextPreorder(ns[0], m);
      StepInChild(t, ns, base, m);
    } else {
      assert ns[1..] == t.children[base + 1..];
      NextPreorderOf(t, ns[1..], base + 1, m - n0);
      PreorderOfAt(ns, base, m);
      if m + 1 < |PreorderOf(ns, base)| {
        PreorderOfAt(ns, base, m + 1);
      }
    }
  }

  /** Position `m` of the children's order: in the first child's block, or in the rest. */
  lemma PreorderOfAt(ns: seq<Node>, base: nat, m: nat)
    requires m < |PreorderOf(ns, base)|
    ensures var sub := Preorder(ns[0]);
      |PreorderOf(ns, base)| == |sub| + |PreorderOf(ns[1..], base + 1)| &&
      PreorderOf(ns, base)[m] ==
        if m < |sub| then [base] + sub[m] else PreorderOf(ns[1..], base + 1)[m - |sub|]
  {
    var sub := Preorder(ns[0]);
    var head := seq(|sub|, i requires 0 <= i < |sub| => [base] + sub[i]);
    assert PreorderOf(ns, base) == head + PreorderOf(ns[1..], base + 1);
  }

  /** A step from inside the subtree of child `base`, given the child's own step. */
  lemma StepInChild(t: Node, ns: seq<Node>, base: nat, m: nat)
    requires t.Element? && base + |ns| == |t.children| && ns == t.children[base..] && |ns| > 0
    requires m < |Preorder(ns[0])|
    requires var sub := Preorder(ns[0]);
      ValidPath(ns[0], sub[m]) &&
      Next(ns[0], sub[m]) == if |sub| == 1 then None else Some(sub[if m + 1 == |sub| then 0 else m + 1])
    ensures var po := PreorderOf(ns, base);
      m < |po| && ValidPath(t, po[m]) && Next(t, po[m]) == Some(if m + 1 < |po| then po[m + 1] else [])
  {
    assert ns[0] == t.children[base];
    BlockStep(ns, base, m);
    NextBelow(t, base, Preorder(ns[0])[m]);
  }

  /** Where position `m` of the first child's block sits in the children's order, and what follows it. */
  lemma BlockStep(ns: seq<Node>, base: nat, m: nat)
    requires |ns| > 0 && m < |Preorder(ns[0])|
    ensures var po, sub := PreorderOf(ns, base), Preorder(ns[0]);
      && m < |po| && po[m] == [base] + sub[m]
      && (m + 1 < |sub| ==> m + 1 < |po| && po[m + 1] == [base] + sub[m + 1] && sub[m + 1] != [])
      && (m + 1 == |sub| && |ns| > 1 ==> m + 1 < |po| && po[m + 1] == [base + 1])
      && (m + 1 == |sub| && |ns| == 1 ==> m + 1 == |po|)
  {
    var sub := Preorder(ns[0]);
    PreorderOfAt(ns, base, m);
    if m + 1 < |sub| {
      PreorderBelowRoot(ns[0], m + 1);
      PreorderOfAt(ns, base, m + 1);
    } else if |ns| > 1 {
      PreorderOfFirst(ns[1..], base + 1);
      PreorderOfAt(ns, base, m + 1);
    }
  }

  /** The children's order starts at the first child. */
  lemma PreorderOfFirst(ns: seq<Node>, base: nat)
    requires |ns| > 0
    ensures |PreorderOf(ns, base)| > 0 && PreorderOf(ns, base)[0] == [base]
  {
    var sub := Preorder(ns[0]);
    var head := seq(|sub|, i requires 0 <= i < |sub| => [base] + sub[i]);
    assert PreorderOf(ns, base) == head + PreorderOf(ns[1..], base + 1);
    assert head[0] == [base] + [];
  }

  // ---------------------------------------------------------------------------
  // Paths across an edit

  predicate IsLeaf(n: Node) {
    !n.Element?
  }

  /** A proper ancestor of a node is an element. */
  lemma {:induction false} AncestorElement(t: Node, p: Path, n: nat)
    requires ValidPath(t, p) && n < |p|
    ensures ValidPath(t, p[..n]) && At(t, p[..n]).Element?
    decreases |p|
  {
    PrefixValid(t, p, n);
    if n > 0 {
      AncestorElement(Kids(t)[p[0]], p[1..], n - 1);
      assert p[..n][1..] == p[1..][..n - 1];
    }
  }

  /** Nothing lies below a leaf: a path through it ends there. */
  lemma {:induction false} LeafPrefix(t: Node, p: Path, q: Path)
    requires ValidPath(t, p) && IsLeaf(At(t, p))
    requires ValidPath(t, q) && |p| <= |q| && q[..|p|] == p
    ensures q == p
    decreases |p|
  {
    if |p| > 0 {
      assert q[1..][..|p| - 1] == p[1..];
      LeafPrefix(t.children[p[0]], p[1..], q[1..]);
      assert q == [q[0]] + q[1..] && p == [p[0]] + p[1..];
    }
  }

  /** Replacing a leaf by a leaf leaves every other leaf where it was. */
  lemma {:induction false} ReplaceLeaf(t: Node, w: Path, n: Node, q: Path)
    requires ValidPath(t, w) && IsLeaf(At(t, w)) && IsLeaf(n)
    requires ValidPath(t, q) && IsLeaf(At(t, q)) && q != w
    ensures ValidPath(Replace(t, w, n), q) && At(Replace(t, w, n), q) == At(t, q)
    decreases |w|
  {
    if |w| == 0 {
      assert false;
    }
    var r := Replace(t, w, n);
    assert |q| > 0;
    if q[0] == w[0] {
      assert q[1..] != w[1..] by {
        assert q == [q[0]] + q[1..] && w == [w[0]] + w[1..];
      }
      ReplaceLeaf(t.children[w[0]], w[1..], n, q[1..]);
    } else {
      assert Kids(r)[q[0]] == Kids(t)[q[0]];
    }
  }

  /** Where the path `q` leads once the node at `s` is removed. */
  function Shift(q: Path, s: Path): (r: Path)
    requires |s| > 0
    ensures |r| == |q|
  {
    var k := |s| - 1;
    if |q| > k && q[..k] == s[..k] && q[k] > s[k] then q[k := q[k] - 1] else q
  }

  lemma ShiftCons(q: Path, s: Path)
    requires |s| > 1 && |q| > 0 && q[0] == s[0]
    ensures Shift(q, s) == [q[0]] + Shift(q[1..], s[1..])
  {
    var k := |s| - 1;
    if |q| > k {
      assert (q[..k] == s[..k]) == (q[1..][..k - 1] == s[1..][..k - 1]) by {
        if q[1..][..k - 1] == s[1..][..k - 1] {
          assert q[..k] == [q[0]] + q[1..][..k - 1];
          assert s[..k] == [s[0]] + s[1..][..k - 1];
        }
        if q[..k] == s[..k] {
          assert q[1..][..k - 1] == q[..k][1..];
          assert s[1..][..k - 1] == s[..k][1..];
        }
      }
      assert q[1..][k - 1] == q[k] && s[1..][k - 1] == s[k];
      if q[..k] == s[..k] && q[k] > s[k] {
        assert q[k := q[k] - 1] == [q[0]] + q[1..][k - 1 := q[k] - 1];
      } else {
        assert q == [q[0]] + q[1..];
      }
    } else {
      assert q == [q[0]] + q[1..];
    }
  }

  /** Removing a leaf leaves every other leaf in place, at its shifted path. */
  lemma {:induction false} RemoveShift(t: Node, s: Path, q: Path)
    requires ValidPath(t, s) && |s| > 0 && IsLeaf(At(t, s))
    requires ValidPath(t, q) && IsLeaf(At(t, q)) && q != s
    ensures ValidPath(Remove(t, s), Shift(q, s)) && At(Remove(t, s), Shift(q, s)) == At(t, q)
    decreases |s|
  {
    assert |q| > 0;
    var i, j := s[0], q[0];
    if |s| == 1 {
      RemoveChildShift(t, s, q);
    } else if j == i {
      var c := t.children;
      assert Remove(t, s) == t.(children := c[i := Remove(c[i], s[1..])]);
      ShiftCons(q, s);
      assert q[1..] != s[1..] by {
        assert q == [q[0]] + q[1..] && s == [s[0]] + s[1..];
      }
      RemoveShift(c[i], s[1..], q[1..]);
      assert Shift(q, s)[1..] == Shift(q[1..], s[1..]);
    } else {
      assert Shift(q, s) == q by {
        if |q| > |s| - 1 {
          assert q[..|s| - 1][0] != s[..|s| - 1][0];
        }
      }
      assert Kids(Remove(t, s))[j] == t.children[j];
    }
  }

  /** Removing a child of the root: the later siblings move one place to the left. */
  lemma RemoveChildShift(t: Node, s: Path, q: Path)
    requires ValidPath(t, s) && |s| == 1 && IsLeaf(At(t, s))
    requires ValidPath(t, q) && |q| > 0 && q != s
    ensures ValidPath(Remove(t, s), Shift(q, s)) && At(Remove(t, s), Shift(q, s)) == At(t, q)
  {
    var i, j := s[0], q[0];
    var c := t.children;
    if j == i {
      assert q[..1] == s;
      LeafPrefix(t, s, q);
      assert false;
    }
    var d := c[..i] + c[i + 1..];
    assert Remove(t, s) == t.(children := d);
    if j < i {
      assert Shift(q, s) == q;
      assert d[j] == c[j];
    } else {
      assert Shift(q, s) == q[0 := j - 1];
      assert d[j - 1] == c[j];
      assert Shift(q, s)[1..] == q[1..];
    }
  }

  /** A splice below a node keeps the path to it, and it stays an element. */
  lemma {:induction false} SpliceAncestor(t: Node, p: Path, ns: seq<Node>, n: nat)
    requires ValidPath(t, p) && |p| > 0 && n < |p|
    ensures ValidPath(Splice(t, p, ns), p[..n]) && At(Splice(t, p, ns), p[..n]).Element?
    decreases |p|
  {
    if n > 0 {
      SpliceAncestor(t.children[p[0]], p[1..], ns, n - 1);
      assert p[..n][1..] == p[1..][..n - 1];
    }
  }

  /** Shifting past a removed node changes no index above that node's level. */
  lemma ShiftPrefix(q: Path, s: Path, n: nat)
    requires |s| > 0 && n < |s| && n <= |q|
    ensures Shift(q, s)[..n] == q[..n]
  {
  }
}
