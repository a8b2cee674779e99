/**
 * `DataReference`: the trie of dotted key paths that records which binders
 * depend on which key, and marks them dirty when a key changes.
 *
 * The source keeps one object per trie node, each with a `HashSet` of binders
 * and a `Dictionary` of children.  Here a node is named by its path from the
 * root (`["user", "name"]` for `user.name`), and the whole trie is one object:
 * `nodes` lists the paths in the order they were created, which is the order in
 * which every node's `Dictionary` enumerates its children (nodes are never
 * removed), and `binders` maps a node to the binders registered on it.
 */
module References {
  import opened Text

  type BinderId = nat
  type Path = seq<string>

  predicate IsPrefix(p: Path, q: Path) {
    |p| <= |q| && q[..|p|] == p
  }

  predicate Distinct<T(==)>(s: seq<T>) {
    forall i, j :: 0 <= i < j < |s| ==> s[i] != s[j]
  }

  /** Every prefix of a node's path is a node too: the trie has no gaps. */
  predicate PrefixClosed(nodes: seq<Path>) {
    forall q, n {:trigger q[..n], q in nodes} :: q in nodes && 0 <= n <= |q| ==> q[..n] in nodes
  }

  /** The length of the longest path. */
  function MaxLen(nodes: seq<Path>): nat {
    if nodes == [] then 0
    else
      var m := MaxLen(nodes[1..]);
      if |nodes[0]| > m then |nodes[0]| else m
  }

  /** No node lies deeper than `MaxLen`. */
  lemma {:induction false} MaxLenBounds(nodes: seq<Path>, q: Path)
    requires q in nodes
    ensures |q| <= MaxLen(nodes)
  {
    if q != nodes[0] {
      assert nodes == [nodes[0]] + nodes[1..];
      MaxLenBounds(nodes[1..], q);
    }
  }

  /** The keys of the `_children` dictionary of node `p`, in creation order. */
  function ChildNames(nodes: seq<Path>, p: Path): seq<string> {
    if nodes == [] then []
    else
      var q := nodes[0];
      (if |q| == |p| + 1 && q[..|p|] == p then [q[|p|]] else []) + ChildNames(nodes[1..], p)
  }

  /** The children of `p` are exactly the nodes one segment below it. */
  lemma {:induction false} ChildNamesAreChildren(nodes: seq<Path>, p: Path)
    ensures forall s :: s in ChildNames(nodes, p) <==> p + [s] in nodes
  {
    if nodes != [] {
      var q := nodes[0];
      var isChild := |q| == |p| + 1 && q[..|p|] == p;
      ChildNamesAreChildren(nodes[1..], p);
      assert nodes == [q] + nodes[1..];
      assert isChild ==> q == p + [q[|p|]];
      forall s | p + [s] == q ensures isChild && s == q[|p|] {
        assert (p + [s])[..|p|] == p;
      }
    }
  }

  lemma {:induction false} ChildNamesDistinct(nodes: seq<Path>, p: Path)
    requires Distinct(nodes)
    ensures Distinct(ChildNames(nodes, p))
  {
    if nodes != [] {
      var q := nodes[0];
      assert nodes == [q] + nodes[1..];
      assert q !in nodes[1..];
      ChildNamesDistinct(nodes[1..], p);
      ChildNamesAreChildren(nodes[1..], p);
      if |q| == |p| + 1 && q[..|p|] == p {
        assert q == p + [q[|p|]];
        assert q[|p|] !in ChildNames(nodes[1..], p);
      }
    }
  }

  /**
   * The preorder walk `Apply(null, …)` makes below `p`: `p` itself, then each
   * child's subtree in turn.  `h` bounds the depth still to be explored; from
   * the root, `MaxLen(nodes)` never cuts anything off (`HeightSuffices`).
   */
  function Subtree(nodes: seq<Path>, p: Path, h: nat): seq<Path>
    decreases h, 1, 0
  {
    [p] + SubtreeKids(nodes, p, ChildNames(nodes, p), h)
  }

  function SubtreeKids(nodes: seq<Path>, p: Path, names: seq<string>, h: nat): seq<Path>
    decreases h, 0, |names|
  {
    if names == [] || h == 0 then []
    else Subtree(nodes, p + [names[0]], h - 1) + SubtreeKids(nodes, p, names[1..], h)
  }

  /** What a call of `Apply` visits, and what it leaves in the shared key queue. */
  datatype Applied = Applied(visited: seq<Path>, rest: seq<string>)

  /**
   * `DataReference.Apply(keys, callback, strict)` on node `p`.  An empty queue
   * visits the whole subtree.  Otherwise the head key is dequeued: strict mode
   * follows the child with exactly that name; loose mode enters, in order,
   * every child whose name starts with the key ignoring case, and all of those
   * calls dequeue from the SAME queue, so a child sees what its earlier
   * siblings left of it.
   */
  function Apply(nodes: seq<Path>, p: Path, queue: seq<string>, strict: bool, h: nat): Applied
    decreases h, 1, 0
  {
    if queue == [] then Applied(Subtree(nodes, p, h), [])
    else
      var key := queue[0];
      if strict then
        if h > 0 && p + [key] in nodes then Apply(nodes, p + [key], queue[1..], true, h - 1)
        else Applied([], queue[1..])
      else ApplyKids(nodes, p, ChildNames(nodes, p), key, queue[1..], h)
  }

  function ApplyKids(nodes: seq<Path>, p: Path, names: seq<string>, key: string, queue: seq<string>, h: nat): Applied
    decreases h, 0, |names|
  {
    if names == [] || h == 0 then Applied([], queue)
    else if StartsWithIgnoreCase(names[0], key) then
      var first := Apply(nodes, p + [names[0]], queue, false, h - 1);
      var more := ApplyKids(nodes, p, names[1..], key, first.rest, h);
      Applied(first.visited + more.visited, more.rest)
    else ApplyKids(nodes, p, names[1..], key, queue, h)
  }

  /** The nodes `SetDirty(key, strict)` hands to its callback. */
  function Visited(nodes: seq<Path>, key: string, strict: bool): seq<Path> {
    Apply(nodes, [], Split(key), strict, MaxLen(nodes)).visited
  }

  // ---------------------------------------------------------------------------
  // What the walks visit

  /** A node at the depth bound has no children, so the bound never cuts a walk short. */
  lemma HeightSuffices(nodes: seq<Path>, p: Path, h: nat)
    requires |p| + h >= MaxLen(nodes) && h == 0
    ensures ChildNames(nodes, p) == []
  {
    if ChildNames(nodes, p) != [] {
      ChildNamesAreChildren(nodes, p);
      MaxLenBounds(nodes, p + [ChildNames(nodes, p)[0]]);
    }
  }

  /** The preorder walk from a node visits exactly the node's descendants (itself included). */
  lemma {:induction false} SubtreeIsDescendants(nodes: seq<Path>, p: Path, h: nat, q: Path)
    requires PrefixClosed(nodes) && p in nodes && |p| + h >= MaxLen(nodes)
    ensures q in Subtree(nodes, p, h) <==> q in nodes && IsPrefix(p, q)
    decreases h, 1
  {
    var names := ChildNames(nodes, p);
    ChildNamesAreChildren(nodes, p);
    if h == 0 {
      HeightSuffices(nodes, p, h);
    }
    KidsAreDescendants(nodes, p, names, h, q);
    if q != p && IsPrefix(p, q) {
      assert q[..|q|] == q;
      if q in nodes {
        assert q[..|p| + 1] == p + [q[|p|]];
        assert q[..|p| + 1] in nodes;
      }
    }
  }

  lemma {:induction false} KidsAreDescendants(nodes: seq<Path>, p: Path, names: seq<string>, h: nat, q: Path)
    requires PrefixClosed(nodes) && |p| + h >= MaxLen(nodes)
    requires forall s :: s in names ==> p + [s] in nodes
    requires h == 0 ==> names == []
    ensures q in SubtreeKids(nodes, p, names, h) <==>
      q in nodes && |q| > |p| && IsPrefix(p, q) && q[|p|] in names
    decreases h, 0, |names|
  {
    if names != [] {
      var c := p + [names[0]];
      assert SubtreeKids(nodes, p, names, h) == Subtree(nodes, c, h - 1) + SubtreeKids(nodes, p, names[1..], h);
      SubtreeIsDescendants(nodes, c, h - 1, q);
      KidsAreDescendants(nodes, p, names[1..], h, q);
      ChildPrefix(p, names[0], q);
      if |q| > |p| {
        assert names == [names[0]] + names[1..];
        assert q[|p|] in names <==> q[|p|] == names[0] || q[|p|] in names[1..];
      }
    }
  }

  /** `q` lies below the child `p + [s]` exactly when it lies below `p` and continues with `s`. */
  lemma ChildPrefix(p: Path, s: string, q: Path)
    ensures IsPrefix(p + [s], q) <==> |q| > |p| && IsPrefix(p, q) && q[|p|] == s
  {
    var c := p + [s];
    if IsPrefix(c, q) {
      assert q[..|p|] == c[..|p|];
      assert q[|p|] == q[..|c|][|p|];
    }
    if |q| > |p| && IsPrefix(p, q) && q[|p|] == s {
      assert q[..|c|] == q[..|p|] + [q[|p|]];
    }
  }

  /**
   * Strict marking of `p` + `q` visits exactly the subtree of that node when it
   * exists, and nothing otherwise.
   */
  lemma {:induction false} StrictVisitsExactSubtree(nodes: seq<Path>, p: Path, q: seq<string>, h: nat)
    requires PrefixClosed(nodes) && p in nodes && |p| + h >= MaxLen(nodes)
    ensures p + q in nodes ==> |q| <= h && Apply(nodes, p, q, true, h).visited == Subtree(nodes, p + q, h - |q|)
    ensures p + q !in nodes ==> Apply(nodes, p, q, true, h).visited == []
    decreases |q|
  {
    if q == [] {
      assert p + q == p;
    } else {
      var e := p + [q[0]];
      assert e + q[1..] == p + q;
      assert (p + q)[..|p| + 1] == e;
      if h == 0 && e in nodes {
        MaxLenBounds(nodes, e);
      } else if e in nodes {
        assert Apply(nodes, p, q, true, h) == Apply(nodes, e, q[1..], true, h - 1);
        StrictVisitsExactSubtree(nodes, e, q[1..], h - 1);
      } else {
        assert Apply(nodes, p, q, true, h).visited == [];
      }
    }
  }

  /** Strict marking of `key` visits precisely the nodes at or below the node of `key`. */
  lemma StrictVisitsDescendants(nodes: seq<Path>, key: string, q: Path)
    requires PrefixClosed(nodes) && [] in nodes
    ensures q in Visited(nodes, key, true) <==> q in nodes && IsPrefix(Split(key), q)
  {
    var k := Split(key);
    var h := MaxLen(nodes);
    assert Visited(nodes, key, true) == Apply(nodes, [], k, true, h).visited;
    StrictVisitsExactSubtree(nodes, [], k, h);
    assert [] + k == k;
    if k in nodes {
      MaxLenBounds(nodes, k);
      SubtreeIsDescendants(nodes, k, h - |k|, q);
    }
  }

  /** The names among `names` that start with `key`, ignoring case. */
  function Matching(names: seq<string>, key: string): (r: seq<string>)
    ensures forall s :: s in r <==> s in names && StartsWithIgnoreCase(s, key)
  {
    if names == [] then []
    else
      assert names == [names[0]] + names[1..];
      (if StartsWithIgnoreCase(names[0], key) then [names[0]] else []) + Matching(names[1..], key)
  }

  lemma {:induction false} LastKeyMarksMatchingSubtrees(nodes: seq<Path>, p: Path, names: seq<string>, key: string, h: nat)
    requires h >= 1
    ensures ApplyKids(nodes, p, names, key, [], h) == Applied(SubtreeKids(nodes, p, Matching(names, key), h), [])
    decreases |names|
  {
    if names != [] {
      LastKeyMarksMatchingSubtrees(nodes, p, names[1..], key, h);
      var m := Matching(names[1..], key);
      if StartsWithIgnoreCase(names[0], key) {
        assert Matching(names, key) == [names[0]] + m;
        assert ([names[0]] + m)[1..] == m;
      } else {
        assert Matching(names, key) == m;
      }
    }
  }

  /**
   * Loose marking with a one-segment key marks, in order, the whole subtree of
   * every child of `p` whose name starts with the key, ignoring case.
   */
  lemma OneKeyLooseMarksPrefixedSubtrees(nodes: seq<Path>, p: Path, key: string, h: nat)
    requires h >= 1
    ensures Apply(nodes, p, [key], false, h).visited
         == SubtreeKids(nodes, p, Matching(ChildNames(nodes, p), key), h)
  {
    assert [key][1..] == [];
    LastKeyMarksMatchingSubtrees(nodes, p, ChildNames(nodes, p), key, h);
  }

  lemma StartsWithItselfIgnoreCase(s: string)
    ensures StartsWithIgnoreCase(s, s)
  {
  }

  /** Along `q`, no sibling's name starts with the key being followed, except the exact child. */
  predicate Unambiguous(nodes: seq<Path>, p: Path, q: seq<string>)
    decreases |q|
  {
    q == [] ||
    ((forall s :: s in ChildNames(nodes, p) && StartsWithIgnoreCase(s, q[0]) ==> s == q[0])
      && Unambiguous(nodes, p + [q[0]], q[1..]))
  }

  lemma {:induction false} OnlyExactKidMatches(nodes: seq<Path>, p: Path, names: seq<string>, key: string, queue: seq<string>, h: nat)
    requires Distinct(names) && h >= 1
    requires forall s :: s in names && StartsWithIgnoreCase(s, key) ==> s == key
    ensures ApplyKids(nodes, p, names, key, queue, h).visited
         == if key in names then Apply(nodes, p + [key], queue, false, h - 1).visited else []
    decreases |names|
  {
    if names != [] {
      assert names == [names[0]] + names[1..];
      StartsWithItselfIgnoreCase(key);
      if names[0] == key {
        assert key !in names[1..];
        var first := Apply(nodes, p + [key], queue, false, h - 1);
        OnlyExactKidMatches(nodes, p, names[1..], key, first.rest, h);
      } else {
        OnlyExactKidMatches(nodes, p, names[1..], key, queue, h);
      }
    }
  }

  /** Where no sibling prefix-matches the key being followed, loose marking visits what strict marking does. */
  lemma {:induction false} UnambiguousLooseIsStrict(nodes: seq<Path>, p: Path, q: seq<string>, h: nat)
    requires Distinct(nodes) && |p| + h >= MaxLen(nodes) && Unambiguous(nodes, p, q)
    ensures Apply(nodes, p, q, false, h).visited == Apply(nodes, p, q, true, h).visited
    decreases |q|
  {
    if q != [] {
      if h == 0 {
        HeightSuffices(nodes, p, h);
      } else {
        ChildNamesDistinct(nodes, p);
        ChildNamesAreChildren(nodes, p);
        OnlyExactKidMatches(nodes, p, ChildNames(nodes, p), q[0], q[1..], h);
        if p + [q[0]] in nodes {
          UnambiguousLooseIsStrict(nodes, p + [q[0]], q[1..], h - 1);
        }
      }
    }
  }

  /** A trie where `ax` was created before `a`, and `a.b.c` exists. */
  const SiblingFirst: seq<Path> := [[], ["ax"], ["a"], ["a", "b"], ["a", "b", "c"]]

  lemma SiblingFirstShape()
    ensures MaxLen(SiblingFirst) == 3
    ensures ChildNames(SiblingFirst, []) == ["ax", "a"]
    ensures ChildNames(SiblingFirst, ["ax"]) == []
    ensures ChildNames(SiblingFirst, ["a"]) == ["b"]
  {
    var n := SiblingFirst;
    assert n[1..] == [["ax"], ["a"], ["a", "b"], ["a", "b", "c"]];
    assert n[2..] == [["a"], ["a", "b"], ["a", "b", "c"]];
    assert n[3..] == [["a", "b"], ["a", "b", "c"]];
    assert n[4..] == [["a", "b", "c"]];
  }

  /**
   * The shared key queue can make loose marking miss the very node it was asked
   * for: with `ax` created before `a`, notifying `a.b.c` lets the walk into
   * `ax` consume `b`, so the walk into `a` follows `c` instead and finds
   * nothing, although `a.b.c` is a node.
   */
  lemma SharedQueueCanMissExactPath()
    ensures ["a", "b", "c"] in SiblingFirst && Visited(SiblingFirst, "a.b.c", false) == []
  {
    SiblingFirstShape();
    SplitABC();
    WalkFromRoot(SiblingFirst);
  }

  lemma SplitABC()
    ensures Split("a.b.c") == ["a", "b", "c"]
  {
    SplitSingle("c");
    SplitCons("b", "c");
    assert "b.c" == "b" + [Delimiter] + "c";
    SplitCons("a", "b.c");
    assert "a.b.c" == "a" + [Delimiter] + "b.c";
  }

  /** At the root `a` is dequeued; `ax` and `a` both start with it and share the rest of the queue. */
  lemma WalkFromRoot(nodes: seq<Path>)
    requires ChildNames(nodes, []) == ["ax", "a"]
    requires ChildNames(nodes, ["ax"]) == [] && ChildNames(nodes, ["a"]) == ["b"]
    ensures Apply(nodes, [], ["a", "b", "c"], false, 3).visited == []
  {
    WalkIntoAx(nodes);
    WalkIntoA(nodes);
    PrefixOfItself("a", "x");
    assert [] + ["ax"] == ["ax"] && [] + ["a"] == ["a"];
    assert ["ax", "a"][1..] == ["a"] && ["a"][1..] == [];
    var rest := ApplyKids(nodes, [], ["a"], "a", ["c"], 3);
    assert rest == Applied([] + [], []);
    assert ["a", "b", "c"][1..] == ["b", "c"];
    assert Apply(nodes, [], ["a", "b", "c"], false, 3) == ApplyKids(nodes, [], ["ax", "a"], "a", ["b", "c"], 3);
  }

  /** `s + t` starts with `s`, ignoring case. */
  lemma PrefixOfItself(s: string, t: string)
    ensures StartsWithIgnoreCase(s + t, s) && StartsWithIgnoreCase(s, s)
  {
    assert (s + t)[..|s|] == s;
    StartsWithIsIgnoreCase(s + t, s);
    assert s[..|s|] == s;
    StartsWithIsIgnoreCase(s, s);
  }

  /** The walk into `ax` dequeues `b` and finds no child. */
  lemma WalkIntoAx(nodes: seq<Path>)
    requires ChildNames(nodes, ["ax"]) == []
    ensures Apply(nodes, ["ax"], ["b", "c"], false, 2) == Applied([], ["c"])
  {
    assert ["b", "c"][1..] == ["c"];
  }

  /** The walk into `a` dequeues `c`, which its only child `b` does not start with. */
  lemma WalkIntoA(nodes: seq<Path>)
    requires ChildNames(nodes, ["a"]) == ["b"]
    ensures Apply(nodes, ["a"], ["c"], false, 2) == Applied([], [])
  {
    assert FoldCase("b"[0]) != FoldCase("c"[0]);
    assert ["b"][1..] == [];
    assert ApplyKids(nodes, ["a"], ["b"], "c", [], 2) == ApplyKids(nodes, ["a"], [], "c", [], 2);
    assert ["c"][1..] == [];
  }

  // ---------------------------------------------------------------------------
  // The trie object

  /** The nodes `Find` creates for `segs`: each prefix `segs[..j]`, `j >= i`, not yet a node. */
  function Created(nodes: seq<Path>, segs: seq<string>, i: nat): seq<Path>
    requires i >= 1
    decreases |segs| + 1 - i
  {
    if i > |segs| then [] else (if segs[..i] in nodes then [] else [segs[..i]]) + Created(nodes, segs, i + 1)
  }

  lemma {:induction false} CreatedIgnoresShorter(nodes: seq<Path>, segs: seq<string>, i: nat, x: Path)
    requires i >= 1 && |x| < i
    ensures Created(nodes + [x], segs, i) == Created(nodes, segs, i)
    decreases |segs| + 1 - i
  {
    if i <= |segs| {
      assert segs[..i] in nodes + [x] <==> segs[..i] in nodes;
      CreatedIgnoresShorter(nodes, segs, i + 1, x);
    }
  }

  lemma ExtendKeepsPrefixClosed(nodes: seq<Path>, cur: Path)
    requires PrefixClosed(nodes) && forall n :: 0 <= n < |cur| ==> cur[..n] in nodes
    ensures PrefixClosed(nodes + [cur])
  {
    forall q, n | q in nodes + [cur] && 0 <= n <= |q| ensures q[..n] in nodes + [cur] {
      if q == cur && n == |cur| {
        assert q[..n] == cur;
      }
    }
  }

  class DataReference {
    /** Every node's path, in creation order; the root `[]` first. */
    var nodes: seq<Path>
    /** `_dataBinders` of each node (a node without an entry has none). */
    var binders: map<Path, set<BinderId>>

    ghost predicate Valid()
      reads this
    {
      |nodes| >= 1 && nodes[0] == [] && Distinct(nodes) && PrefixClosed(nodes)
      && forall q :: q in binders ==> q in nodes
    }

    function BindersAt(q: Path): set<BinderId>
      reads this
    {
      if q in binders then binders[q] else {}
    }

    constructor ()
      ensures Valid() && nodes == [[]] && binders == map[]
    {
      nodes := [[]];
      binders := map[];
    }

    /** `Find(keys)`: the node of `keys`, creating the missing nodes on the way in path order. */
    method Find(key: string) returns (path: Path)
      requires Valid()
      modifies this`nodes
      ensures Valid() && path == Split(key) && path in nodes
      ensures nodes == old(nodes) + Created(old(nodes), Split(key), 1)
      ensures forall j :: 1 <= j <= |path| ==> path[..j] in nodes
    {
      var segs := Split(key);
      var i := 1;
      while i <= |segs|
        invariant 1 <= i <= |segs| + 1 && Valid()
        invariant forall j :: 1 <= j < i ==> segs[..j] in nodes
        invariant nodes + Created(nodes, segs, i) == old(nodes) + Created(old(nodes), segs, 1)
        invariant forall q :: q in old(nodes) ==> q in nodes
        decreases |segs| + 1 - i
      {
        var cur := segs[..i];
        if cur !in nodes {
          forall n | 0 <= n < |cur| ensures cur[..n] in nodes {
            if n == 0 {
              assert cur[..n] == nodes[0];
            } else {
              assert cur[..n] == segs[..n];
            }
          }
          ExtendKeepsPrefixClosed(nodes, cur);
          CreatedIgnoresShorter(nodes, segs, i + 1, cur);
          nodes := nodes + [cur];
        }
        i := i + 1;
      }
      path := segs;
      assert path == segs[..|segs|];
    }

    /** `CleanAll()` on node `p`: drop the destroyed binders (those not `live`) from its whole subtree. */
    method CleanAll(p: Path, live: set<BinderId>)
      requires Valid()
      modifies this`binders
      ensures Valid()
      ensures forall q :: BindersAt(q) == if IsPrefix(p, q) then old(BindersAt(q)) * live else old(BindersAt(q))
    {
      binders := map q | q in binders :: if IsPrefix(p, q) then binders[q] * live else binders[q];
    }

    /** `Register(key, binder)`: find or create the node, clean its subtree, add the binder. */
    method Register(key: string, b: BinderId, live: set<BinderId>)
      requires Valid()
      modifies this
      ensures Valid()
      ensures nodes == old(nodes) + Created(old(nodes), Split(key), 1)
      ensures BindersAt(Split(key)) == old(BindersAt(Split(key))) * live + {b}
      ensures forall q :: q != Split(key) ==>
        BindersAt(q) == if IsPrefix(Split(key), q) then old(BindersAt(q)) * live else old(BindersAt(q))
    {
      var path := Find(key);
      CleanAll(path, live);
      assert IsPrefix(path, path);
      binders := binders[path := BindersAt(path) + {b}];
    }

    /** `Unregister(binder)`: remove the binder from every node. */
    method Unregister(b: BinderId)
      requires Valid()
      modifies this`binders
      ensures Valid()
      ensures forall q :: BindersAt(q) == old(BindersAt(q)) - {b}
    {
      binders := map q | q in binders :: binders[q] - {b};
    }

    /**
     * `SetDirty(key, strict)`: walk `Apply` with the segments of `key` and mark
     * every live binder of every visited node.  Returns the binders on which
     * `DataBinder.SetDirty()` is called.
     */
    method SetDirty(key: string, strict: bool, live: set<BinderId>) returns (marked: set<BinderId>)
      ensures forall b :: b in marked <==>
        b in live && exists q :: q in Visited(nodes, key, strict) && b in BindersAt(q)
    {
      var vis := Visited(nodes, key, strict);
      marked := {};
      var i := 0;
      while i < |vis|
        invariant 0 <= i <= |vis|
        invariant forall b :: b in marked <==> b in live && exists j :: 0 <= j < i && b in BindersAt(vis[j])
      {
        marked := marked + BindersAt(vis[i]) * live;
        i := i + 1;
      }
    }
  }

}
