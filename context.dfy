/**
 * The scope chain: a node holds the data of one rendering scope and an
 * optional parent node. A dotted path is looked up in the node's own data;
 * when that fails, the whole path is looked up in the parent. Every answer is
 * remembered in the node's cache.
 */
module Scope {
  import opened Values

  // ---------------------------------------------------------------------------
  // Paths

  /** PHP empty() on a string: "" and "0". */
  predicate PhpEmpty(path: string) {
    path == "" || path == "0"
  }

  /** PHP explode('.', s): the pieces between the dots, empty pieces kept. */
  function Split(s: string): (parts: seq<string>)
    ensures |parts| > 0
    decreases |s|
  {
    if |s| == 0 then [""]
    else if s[0] == '.' then [""] + Split(s[1..])
    else
      var rest := Split(s[1..]);
      [[s[0]] + rest[0]] + rest[1..]
  }

  /** PHP implode('.', parts). */
  function Join(parts: seq<string>): (s: string)
    requires |parts| > 0
  {
    if |parts| == 1 then parts[0] else parts[0] + "." + Join(parts[1..])
  }

  predicate DotFree(p: string) {
    forall i :: 0 <= i < |p| ==> p[i] != '.'
  }

  /** explode never yields a piece holding a dot. */
  lemma {:induction false} SplitDotFree(s: string)
    ensures forall k :: 0 <= k < |Split(s)| ==> DotFree(Split(s)[k])
    decreases |s|
  {
    if |s| > 0 {
      SplitDotFree(s[1..]);
      if s[0] != '.' {
        var rest := Split(s[1..]);
        assert DotFree(rest[0]);
        assert DotFree([s[0]] + rest[0]) by {
          forall i | 0 <= i < |[s[0]] + rest[0]| ensures ([s[0]] + rest[0])[i] != '.' {
            if i > 0 {
              assert ([s[0]] + rest[0])[i] == rest[0][i - 1];
            }
          }
        }
      }
    }
  }

  /** Joining the pieces of a path gives the path back. */
  lemma {:induction false} JoinSplit(s: string)
    ensures Join(Split(s)) == s
    decreases |s|
  {
    if |s| > 0 {
      JoinSplit(s[1..]);
      var rest := Split(s[1..]);
      if s[0] == '.' {
        assert Split(s)[1..] == rest;
      } else if |rest| == 1 {
        assert s == [s[0]] + s[1..];
      } else {
        assert Split(s)[1..] == rest[1..];
        assert s == [s[0]] + s[1..];
        assert s[1..] == rest[0] + "." + Join(rest[1..]);
      }
    }
  }

  /** Splitting joined dot-free pieces gives the pieces back. */
  lemma {:induction false} SplitJoin(parts: seq<string>)
    requires |parts| > 0 && forall k :: 0 <= k < |parts| ==> DotFree(parts[k])
    ensures Split(Join(parts)) == parts
    decreases |parts|, |parts[0]|
  {
    var p := parts[0];
    if |p| > 0 {
      var tail := [p[1..]] + parts[1..];
      assert DotFree(p[1..]) by {
        forall i | 0 <= i < |p[1..]| ensures p[1..][i] != '.' {
          assert p[1..][i] == p[i + 1];
        }
      }
      assert forall k :: 0 <= k < |tail| ==> DotFree(tail[k]) by {
        forall k | 0 <= k < |tail| ensures DotFree(tail[k]) {
          if k > 0 {
            assert tail[k] == parts[k];
          }
        }
      }
      SplitJoin(tail);
      var j := Join(parts);
      assert j == [p[0]] + Join(tail) by {
        if |parts| == 1 {
        } else {
          assert tail[1..] == parts[1..];
          assert j == p + "." + Join(parts[1..]);
        }
      }
      assert j[0] == p[0] && j[1..] == Join(tail);
      assert p[0] != '.';
      assert [p[0]] + p[1..] == p;
    } else if |parts| > 1 {
      SplitJoin(parts[1..]);
      var j := Join(parts);
      assert j == "." + Join(parts[1..]);
      assert j[1..] == Join(parts[1..]);
    }
  }

  // ---------------------------------------------------------------------------
  // One step and a walk

  /** The value of the first entry named `k`. */
  function Entry(entries: seq<(string, Value)>, k: string): (r: Option<Value>)
    ensures r.Some? <==> exists i :: 0 <= i < |entries| && entries[i].0 == k
    ensures r.Some? ==> exists i :: 0 <= i < |entries| && entries[i] == (k, r.value)
  {
    if |entries| == 0 then None
    else if entries[0].0 == k then Some(entries[0].1)
    else
      var r := Entry(entries[1..], k);
      assert forall i :: 0 < i < |entries| ==> entries[i] == entries[1..][i - 1];
      r
  }

  /** `is_array($data) || $data instanceof ArrayAccess`, then `isset($data[$part])`. */
  function ArrayGet(data: Value, part: string): (r: Option<Value>)
    ensures r.Some? ==> r.value != Null && (data.Map? || data.List?)
  {
    match data
    case Map(entries) =>
      var e := Entry(entries, part);
      if e.Some? && e.value != Null then e else None
    case List(items) =>
      if IsIndexKey(part) && DecimalValue(part) < |items| && items[DecimalValue(part)] != Null
      then Some(items[DecimalValue(part)])
      else None
    case _ => None
  }

  /** `is_object($data)`, then `isset($data->{$part})`. */
  function PropertyGet(data: Value, part: string): (r: Option<Value>)
    ensures r.Some? ==> r.value != Null && data.Object?
  {
    match data
    case Object(fields) =>
      var e := Entry(fields, part);
      if e.Some? && e.value != Null then e else None
    case _ => None
  }

  /** One segment of a path: an array entry first, a property otherwise. */
  function Step(data: Value, part: string): Option<Value> {
    if ArrayGet(data, part).Some? then ArrayGet(data, part) else PropertyGet(data, part)
  }

  /** The local walk of a path's segments from `data`; None at the first failing segment. */
  function Walk(data: Value, parts: seq<string>): Option<Value>
    decreases |parts|
  {
    if |parts| == 0 then Some(data)
    else
      match Step(data, parts[0])
      case None => None
      case Some(next) => Walk(next, parts[1..])
  }

  /** A walk of at least one segment never ends on null: `isset` refuses null. */
  lemma {:induction false} WalkNotNull(data: Value, parts: seq<string>)
    requires |parts| > 0 && Walk(data, parts).Some?
    ensures Walk(data, parts).value != Null
    decreases |parts|
  {
    var next := Step(data, parts[0]).value;
    if |parts| > 1 {
      WalkNotNull(next, parts[1..]);
    }
  }

  /** Walking `p + q` is walking `p`, then walking `q` from where `p` ended. */
  lemma {:induction false} WalkAppend(data: Value, p: seq<string>, q: seq<string>)
    ensures Walk(data, p + q) == if Walk(data, p).Some? then Walk(Walk(data, p).value, q) else None
    decreases |p|
  {
    if |p| > 0 {
      assert (p + q)[0] == p[0] && (p + q)[1..] == p[1..] + q;
      if Step(data, p[0]).Some? {
        WalkAppend(Step(data, p[0]).value, p[1..], q);
      }
    } else {
      assert p + q == q;
    }
  }

  /**
   * What `find` answers in a scope given by its data, innermost first: null
   * for an empty path, else the first scope whose walk succeeds, else null.
   */
  function LookupIn(scope: seq<Value>, path: string): Value
    decreases |scope|
  {
    if PhpEmpty(path) || |scope| == 0 then Null
    else
      match Walk(scope[0], Split(path))
      case Some(v) => v
      case None => LookupIn(scope[1..], path)
  }

  // ---------------------------------------------------------------------------
  // The scope nodes

  class Context {
    /** The data of this scope; assigned only by the constructor. */
    const current: Value
    /** The enclosing scope; assigned only by the constructor. */
    const parent: Context?
    /** Every answer `find` gave for a path, null included. */
    var cache: map<string, Value>

    ghost const depth: nat
    ghost const Ancestors: set<Context>

    ghost function Repr(): set<Context> {
      {this} + Ancestors
    }

    /** The parent links form a finite chain and `Ancestors` lists it. */
    ghost predicate Chain()
      decreases depth
    {
      if parent == null then Ancestors == {}
      else
        && parent.depth < depth
        && Ancestors == {parent} + parent.Ancestors
        && this !in Ancestors
        && parent.Chain()
    }

    /**
     * What `find` answers: null for an empty path, the local walk when it
     * succeeds, else the parent's answer, else null.
     */
    function Lookup(path: string): Value
      requires Chain()
      decreases depth
    {
      if PhpEmpty(path) then Null
      else
        match Walk(current, Split(path))
        case Some(v) => v
        case None => if parent == null then Null else parent.Lookup(path)
    }

    /**
     * `find` answers non-null exactly when the path is non-empty and its walk
     * succeeds in some scope of the chain; the answer is then what that walk
     * found.
     */
    lemma {:induction false} LookupSource(path: string)
      requires Chain()
      ensures Lookup(path) != Null <==>
        !PhpEmpty(path) && exists c :: c in Repr() && Walk(c.current, Split(path)).Some?
      ensures Lookup(path) != Null ==>
        exists c :: c in Repr() && Walk(c.current, Split(path)) == Some(Lookup(path))
      decreases depth
    {
      if !PhpEmpty(path) {
        var parts := Split(path);
        if Walk(current, parts).Some? {
          WalkNotNull(current, parts);
          assert this in Repr();
        } else if parent != null {
          parent.LookupSource(path);
          assert parent.Repr() <= Repr();
          if exists c :: c in Repr() && Walk(c.current, parts).Some? {
            var c :| c in Repr() && Walk(c.current, parts).Some?;
            assert c in parent.Repr();
          }
        } else {
          assert Repr() == {this};
        }
      }
    }

    /** The data of this scope and of its ancestors, innermost first. */
    ghost function Values(): (vs: seq<Value>)
      requires Chain()
      ensures |vs| > 0 && vs[0] == current
      decreases depth
    {
      [current] + if parent == null then [] else parent.Values()
    }

    /** A node's answer is the answer of the data of its chain. */
    lemma {:induction false} LookupValues(path: string)
      requires Chain()
      ensures Lookup(path) == LookupIn(Values(), path)
      decreases depth
    {
      if parent != null {
        parent.LookupValues(path);
        assert Values()[1..] == parent.Values();
      } else {
        assert Values()[1..] == [];
      }
    }

    /** Every cache along the chain holds only true answers. */
    ghost predicate Valid()
      reads Repr()
      decreases depth
    {
      && Chain()
      && (forall k :: k in cache ==> cache[k] == Lookup(k))
      && (parent != null ==> parent.Valid())
    }

    constructor (context: Value, parent: Context?)
      requires parent != null ==> parent.Valid()
      ensures Valid() && fresh(this)
      ensures current == context && this.parent == parent && cache == map[]
      ensures Ancestors == if parent == null then {} else parent.Repr()
    {
      current := context;
      this.parent := parent;
      cache := map[];
      depth := if parent == null then 0 else parent.depth + 1;
      Ancestors := if parent == null then {} else {parent} + parent.Ancestors;
      new;
      assert parent != null ==> this !in parent.Repr();
    }

    /**
     * `find`: the cached answer when there is one; otherwise the answer of
     * `extractData`, which is then cached.
     */
    method Find(path: string) returns (v: Value)
      requires Valid()
      modifies Repr()
      ensures Valid()
      ensures v == Lookup(path)
      ensures cache == old(cache)[path := v]
      ensures old(path in cache) ==> forall c :: c in Repr() ==> c.cache == old(c.cache)
      ensures PhpEmpty(path) || Walk(current, Split(path)).Some? ==>
        forall c :: c in Ancestors ==> c.cache == old(c.cache)
      ensures forall c :: c in Ancestors ==>
        c.cache == old(c.cache) || (path in c.cache && c.cache == old(c.cache)[path := c.cache[path]])
      ensures forall c :: c in Repr() ==> old(c.cache).Keys <= c.cache.Keys
      decreases depth, 1
    {
      if path in cache {
        return cache[path];
      }
      v := ExtractData(path);
      assert parent != null ==> this !in parent.Repr();
      cache := cache[path := v];
    }

    /**
     * `extractData`: walks the path's segments locally; on the first failing
     * segment the whole path is handed to the parent's `find`.
     */
    method ExtractData(path: string) returns (v: Value)
      requires Valid()
      modifies Ancestors
      ensures Valid()
      ensures v == Lookup(path)
      ensures PhpEmpty(path) || Walk(current, Split(path)).Some? ==>
        forall c :: c in Ancestors ==> c.cache == old(c.cache)
      ensures !PhpEmpty(path) && Walk(current, Split(path)).None? && parent != null ==>
        parent.cache == old(parent.cache)[path := v]
      ensures forall c :: c in Ancestors ==>
        c.cache == old(c.cache) || (path in c.cache && c.cache == old(c.cache)[path := c.cache[path]])
      ensures forall c :: c in Ancestors ==> old(c.cache).Keys <= c.cache.Keys
      decreases depth, 0
    {
      if PhpEmpty(path) {
        return Null;
      }
      var parts := Split(path);
      var failed := false;
      var data := current;
      var n := 0;
      while n < |parts|
        invariant 0 <= n <= |parts|
        invariant Walk(current, parts) == Walk(data, parts[n..])
        decreases |parts| - n
      {
        var part := parts[n];
        var element := ArrayGet(data, part);
        if element.Some? {
          data := element.value;
          n := n + 1;
          continue;
        }
        var property := PropertyGet(data, part);
        if property.Some? {
          data := property.value;
          n := n + 1;
          continue;
        }
        failed := true;
        break;
      }
      if !failed {
        assert parts[n..] == [];
        return data;
      }
      if parent != null {
        v := parent.Find(path);
        return v;
      }
      return Null;
    }
  }

  /** The data of each scope, in order. */
  function Currents(scopes: seq<Context>): (vs: seq<Value>)
    ensures |vs| == |scopes| && forall i :: 0 <= i < |scopes| ==> vs[i] == scopes[i].current
  {
    seq(|scopes|, i requires 0 <= i < |scopes| => scopes[i].current)
  }
}
