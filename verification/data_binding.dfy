/**
 * `DataBinding`: the process-wide façade.  It keeps one bucket per scope (a scene
 * node, or none for the global bucket), resolves `*` aliases through the nearest
 * alias group, parks registrations whose bucket does not exist yet, and drains
 * the depth-ordered rebuild queue in waves.
 */
module Bindings {
  import opened Wrappers
  import opened Text
  import opened Values
  import opened Scene
  import opened References
  import opened BindingReferences

  // ---------------------------------------------------------------------------
  // Alias resolution

  /** The index of the first `*` segment, or `|segs|` when there is none. */
  function StarIndex(segs: seq<string>): (i: nat)
    ensures i <= |segs|
    ensures i < |segs| ==> segs[i] == [AliasSymbol]
    ensures forall j :: 0 <= j < i ==> segs[j] != [AliasSymbol]
  {
    if segs == [] then 0
    else if segs[0] == [AliasSymbol] then 0
    else 1 + StarIndex(segs[1..])
  }

  /**
   * The alias group that can stand in for `*` seen from `n`: the nearest
   * self-or-ancestor holding one, provided it has a parent to continue from.
   */
  function UsableGroup(t: Tree, aliases: map<NodeId, string>, n: NodeId): (g: Option<NodeId>)
    requires t.Valid()
    ensures g.Some? ==> g.value in aliases && g.value in t.parent && t.Rank(t.parent[g.value]) < t.Rank(n)
  {
    NearestRank(t, aliases.Keys, n);
    var g := Nearest(t, aliases.Keys, n);
    if g.Some? && g.value in t.parent then g else None
  }

  /**
   * `ResolveKey(keys, baseObject)`: without a scope or without `*` the key is
   * unchanged; otherwise everything up to the first `*` segment is replaced by
   * the usable group's alias and resolution continues from the group's parent.
   * `aliases` maps each node holding an `AliasGroup` to its `Alias` text.
   */
  function ResolvedKey(t: Tree, aliases: map<NodeId, string>, keys: string, scope: Option<NodeId>): string
    requires t.Valid()
    decreases if scope.Some? then t.Rank(scope.value) + 1 else 0
  {
    if scope.None? || AliasSymbol !in keys then keys
    else
      var segs := Split(keys);
      var i := StarIndex(segs);
      var g := UsableGroup(t, aliases, scope.value);
      if i == |segs| || g.None? then Join(segs)
      else ResolvedKey(t, aliases, Join(Split(aliases[g.value]) + segs[i + 1..]), Some(t.parent[g.value]))
  }

  method ResolveKey(t: Tree, aliases: map<NodeId, string>, keys: string, scope: Option<NodeId>) returns (r: string)
    requires t.Valid()
    ensures r == ResolvedKey(t, aliases, keys, scope)
    decreases if scope.Some? then t.Rank(scope.value) + 1 else 0
  {
    if scope.None? || AliasSymbol !in keys {
      return keys;
    }
    var keyArray := Split(keys);
    var i := 0;
    while i < |keyArray|
      invariant 0 <= i <= |keyArray|
      invariant StarIndex(keyArray) < i ==> UsableGroup(t, aliases, scope.value).None?
    {
      if keyArray[i] == [AliasSymbol] {
        var g := GetComponentInParentIncludeInactive(t, aliases.Keys, scope.value);
        if g.Some? && g.value in t.parent {
          var _ := UsableGroup(t, aliases, scope.value);
          var newKeys := Split(aliases[g.value]) + keyArray[i + 1..];
          r := ResolveKey(t, aliases, Join(newKeys), Some(t.parent[g.value]));
          return;
        }
      }
      i := i + 1;
    }
    return Join(keyArray);
  }

  /** No scope, no `*` segment, or no usable alias group: the key comes back unchanged. */
  lemma ResolveKeyIdentity(t: Tree, aliases: map<NodeId, string>, keys: string, scope: Option<NodeId>)
    requires t.Valid()
    requires scope.None? || StarIndex(Split(keys)) == |Split(keys)| || UsableGroup(t, aliases, scope.value).None?
    ensures ResolvedKey(t, aliases, keys, scope) == keys
  {
    JoinSplit(keys);
  }

  lemma {:induction false} SplitAvoids(s: string, c: char)
    requires c !in s
    ensures forall i :: 0 <= i < |Split(s)| ==> c !in Split(s)[i]
  {
    if s != [] {
      SplitAvoids(s[1..], c);
      var rest := Split(s[1..]);
      if s[0] != Delimiter {
        assert Split(s)[0] == [s[0]] + rest[0];
        assert forall i :: 1 <= i < |Split(s)| ==> Split(s)[i] == rest[i];
      } else {
        assert forall i :: 1 <= i < |Split(s)| ==> Split(s)[i] == rest[i - 1];
      }
    }
  }

  lemma {:induction false} JoinAvoids(segs: seq<string>, c: char)
    requires c != Delimiter && forall i :: 0 <= i < |segs| ==> c !in segs[i]
    ensures c !in Join(segs)
  {
    if |segs| >= 2 {
      JoinAvoids(segs[1..], c);
    }
  }

  lemma {:induction false} JoinContains(segs: seq<string>, i: nat, c: char)
    requires i < |segs| && c in segs[i]
    ensures c in Join(segs)
  {
    if |segs| >= 2 && i > 0 {
      JoinContains(segs[1..], i - 1, c);
    }
  }

  /**
   * A `*` segment seen under a usable alias group whose alias, and the segments
   * after the `*`, hold no `*`: one substitution finishes the resolution.
   */
  lemma ResolveKeyOneStep(t: Tree, aliases: map<NodeId, string>, keys: string, n: NodeId)
    requires t.Valid()
    requires StarIndex(Split(keys)) < |Split(keys)| && UsableGroup(t, aliases, n).Some?
    requires AliasSymbol !in aliases[UsableGroup(t, aliases, n).value]
    requires forall j :: StarIndex(Split(keys)) < j < |Split(keys)| ==> AliasSymbol !in Split(keys)[j]
    ensures ResolvedKey(t, aliases, keys, Some(n)) ==
      Join(Split(aliases[UsableGroup(t, aliases, n).value]) + Split(keys)[StarIndex(Split(keys)) + 1..])
  {
    var segs := Split(keys);
    var i := StarIndex(segs);
    var alias := aliases[UsableGroup(t, aliases, n).value];
    JoinSplit(keys);
    JoinContains(segs, i, AliasSymbol);
    var newSegs := Split(alias) + segs[i + 1..];
    SplitAvoids(alias, AliasSymbol);
    forall j | 0 <= j < |newSegs| ensures AliasSymbol !in newSegs[j] {
      if j >= |Split(alias)| {
        assert newSegs[j] == segs[i + 1 + j - |Split(alias)|];
      }
    }
    JoinAvoids(newSegs, AliasSymbol);
  }

  // ---------------------------------------------------------------------------
  // Finding the bucket of a key

  /** The root values of every bucket, by scope (`None` is the global bucket). */
  type Roots = map<Option<NodeId>, map<string, Value>>

  /** The scene nodes whose bucket holds the root name `head`. */
  function HoldersOf(roots: Roots, head: string): set<NodeId> {
    set o | o in roots && o.Some? && head in roots[o] :: o.value
  }

  lemma HoldersOfMember(roots: Roots, head: string, n: NodeId)
    ensures n in HoldersOf(roots, head) <==> Some(n) in roots && head in roots[Some(n)]
  {
    if Some(n) in roots && head in roots[Some(n)] {
      assert Some(n).value == n;
    }
  }

  /**
   * `Find(keys, baseObject)` over the bucket roots: the bucket of the first node
   * on the parent chain of `scope` that holds the key's root name, else the
   * global bucket when it holds it, else none.
   */
  function LocatedIn(t: Tree, roots: Roots, key: string, scope: Option<NodeId>): (r: Option<Option<NodeId>>)
    requires t.Valid()
    ensures r.Some? ==> r.value in roots && Split(key)[0] in roots[r.value]
  {
    var head := Split(key)[0];
    if scope.Some? then
      NearestRank(t, HoldersOf(roots, head), scope.value);
      var near := Nearest(t, HoldersOf(roots, head), scope.value);
      if near.Some? then
        HoldersOfMember(roots, head, near.value);
        Some(near)
      else if None in roots && head in roots[None] then Some(None)
      else None
    else if None in roots && head in roots[None] then Some(None)
    else None
  }

  /** The scene node `n` has a bucket holding the root name `head`. */
  predicate Holds(roots: Roots, n: NodeId, head: string) {
    Some(n) in roots && head in roots[Some(n)]
  }

  /**
   * What `LocatedIn` finds: a scene bucket only when it is the first holder on the parent chain; the global bucket only when
   * no node of the chain holds the name; nothing only when no bucket on the
   * chain and not the global one holds it.
   */
  lemma LocatedIsNearestHolder(t: Tree, roots: Roots, key: string, scope: Option<NodeId>)
    requires t.Valid()
    ensures LocatedIn(t, roots, key, scope).Some? && LocatedIn(t, roots, key, scope).value.Some? ==>
      scope.Some? &&
      exists k :: (0 <= k < |Chain(t, scope.value)|
        && Some(Chain(t, scope.value)[k]) == LocatedIn(t, roots, key, scope).value
        && forall i :: 0 <= i < k ==> !Holds(roots, Chain(t, scope.value)[i], Split(key)[0]))
    ensures LocatedIn(t, roots, key, scope) == Some(None) ==>
      None in roots && Split(key)[0] in roots[None]
      && (scope.None? || forall i :: 0 <= i < |Chain(t, scope.value)| ==> !Holds(roots, Chain(t, scope.value)[i], Split(key)[0]))
    ensures LocatedIn(t, roots, key, scope).None? <==>
      !(None in roots && Split(key)[0] in roots[None])
      && (scope.None? || forall i :: 0 <= i < |Chain(t, scope.value)| ==> !Holds(roots, Chain(t, scope.value)[i], Split(key)[0]))
  {
    var head := Split(key)[0];
    if scope.Some? {
      var hs := HoldersOf(roots, head);
      var c := Chain(t, scope.value);
      NearestIsFirstOnChain(t, hs, scope.value);
      forall i | 0 <= i < |c| ensures c[i] in hs <==> Holds(roots, c[i], head) {
        HoldersOfMember(roots, head, c[i]);
      }
      var near := Nearest(t, hs, scope.value);
      if near.Some? {
        HoldersOfMember(roots, head, near.value);
      }
    }
  }

  /** A bucket that holds the key's root name at the scope itself is the one found. */
  lemma LocatedAtOwnScope(t: Tree, roots: Roots, key: string, scope: Option<NodeId>)
    requires t.Valid()
    requires scope in roots && Split(key)[0] in roots[scope]
    ensures LocatedIn(t, roots, key, scope) == Some(scope)
  {
    if scope.Some? {
      HoldersOfMember(roots, Split(key)[0], scope.value);
    }
  }

  /** The roots after `Set(key, value, scope)`: the scope's bucket, created if missing, maps `key` to `value`. */
  function Stored(roots: Roots, scope: Option<NodeId>, key: string, value: Value): (r: Roots)
    ensures scope in r && key in r[scope] && r[scope][key] == value
  {
    roots[scope := (if scope in roots then roots[scope] else map[])[key := value]]
  }

  lemma StoredAfterAdd(r0: Roots, r1: Roots, scope: Option<NodeId>, key: string, value: Value)
    requires r1 == r0 || (scope !in r0 && r1 == r0[scope := map[]])
    requires scope in r1
    ensures r1[scope := r1[scope][key := value]] == Stored(r0, scope, key, value)
  {
  }

  /**
   * The roots after `Release` has emptied every scene bucket except those in
   * `pending`: the global bucket keeps its roots.
   */
  function Released(roots: Roots, pending: set<Option<NodeId>>): (r: Roots)
    ensures r.Keys == roots.Keys
  {
    map s | s in roots :: if s.None? || s in pending then roots[s] else map[]
  }

  lemma ReleaseStep(roots: Roots, pending: set<Option<NodeId>>, s: Option<NodeId>)
    requires s in pending && s.Some? && s in roots
    ensures Released(roots, pending)[s := map[]] == Released(roots, pending - {s})
  {
  }

  /**
   * The segments `GetValue`/`SetValue` look up: the resolved key split, without
   * empty segments.  A resolved key with no empty segment gives exactly its
   * segments, which join back to the key.
   */
  function KeyList(t: Tree, aliases: map<NodeId, string>, keys: string, scope: Option<NodeId>): (r: seq<string>)
    requires t.Valid()
    ensures Segments(r) && forall i :: 0 <= i < |r| ==> r[i] != ""
    ensures forall i :: 0 <= i < |r| ==> r[i] in Split(ResolvedKey(t, aliases, keys, scope))
    ensures var segs := Split(ResolvedKey(t, aliases, keys, scope));
      (forall i :: 0 <= i < |segs| ==> segs[i] != "") ==> r == segs && Join(r) == ResolvedKey(t, aliases, keys, scope)
  {
    var k := ResolvedKey(t, aliases, keys, scope);
    SplitHasNoDelimiter(k);
    JoinSplit(k);
    var segs := Split(k);
    if forall i :: 0 <= i < |segs| ==> segs[i] != "" then
      NonEmptyKeepsAll(segs);
      NonEmpty(segs)
    else
      NonEmpty(segs)
  }

  /** `*.name` is a `*` segment followed by `name`. */
  lemma StarNameSplits(keys: string)
    requires keys == "*.name"
    ensures Split(keys) == ["*", "name"] && StarIndex(Split(keys)) == 0
    ensures forall j :: StarIndex(Split(keys)) < j < |Split(keys)| ==> AliasSymbol !in Split(keys)[j]
  {
    assert Join(["*", "name"]) == keys;
    SplitJoin(["*", "name"]);
    assert AliasSymbol !in "name";
  }

  /** Node 1, child of node 0, holds an alias group aliased `items.3`: it is the usable group seen from 1. */
  lemma ItemsGroup(t: Tree, aliases: map<NodeId, string>)
    requires t == Tree(map[1 := 0], map[0 := 0, 1 := 1]) && aliases == map[1 := "items.3"]
    ensures t.Valid() && UsableGroup(t, aliases, 1) == Some(1)
    ensures Split(aliases[1]) == ["items", "3"] && AliasSymbol !in aliases[1]
  {
    assert Nearest(t, aliases.Keys, 1) == Some(1);
    assert Join(["items", "3"]) == "items.3";
    SplitJoin(["items", "3"]);
  }

  /** `items`, `3`, `name` joined and split again, without empty segments, are themselves. */
  lemma ItemsNameSegments(segs: seq<string>)
    requires segs == ["items", "3", "name"]
    ensures Split(Join(segs)) == segs && NonEmpty(Split(Join(segs))) == segs
  {
    assert Delimiter !in "items" && Delimiter !in "3" && Delimiter !in "name";
    SplitJoin(segs);
    assert NonEmpty(["name"]) == ["name"];
    assert NonEmpty(["3", "name"]) == ["3", "name"];
  }

  /** Under that group, `*.name` resolves to `items`, `3`, `name`. */
  lemma StarNameResolves(t: Tree, aliases: map<NodeId, string>, keys: string)
    requires t == Tree(map[1 := 0], map[0 := 0, 1 := 1]) && aliases == map[1 := "items.3"] && keys == "*.name"
    ensures KeyList(t, aliases, keys, Some(1)) == ["items", "3", "name"]
  {
    var segs := ["items", "3", "name"];
    StarNameSplits(keys);
    ItemsGroup(t, aliases);
    ResolveKeyOneStep(t, aliases, keys, 1);
    assert Split(aliases[1]) + Split(keys)[1..] == segs;
    ItemsNameSegments(segs);
  }

  /** Notifying `*.name` drops no cache entry of the path `items.3.name`; notifying the path itself does. */
  lemma StarNameEvictsNothing()
    ensures Evicted(Join(["items", "3", "name"]), Join(["items", "3", "name"]), false)
    ensures !Evicted(Join(["items", "3", "name"]), "*.name", false)
  {
    var segs := ["items", "3", "name"];
    var path := Join(segs);
    assert StartsWith(path, path);
    assert path == "items" + ([Delimiter] + Join(segs[1..]));
    assert path[0] == 'i';
    assert path[..|"*.name"|][0] != "*.name"[0];
  }

  /**
   * With only the global bucket, holding the root `items`, under node 1: a key
   * rooted at `items` finds the global bucket, one rooted at `*` finds none.
   */
  lemma GlobalItemsLocation(t: Tree, roots: Roots, path: string, keys: string)
    requires t == Tree(map[1 := 0], map[0 := 0, 1 := 1]) && roots == map[None := map["items" := Null]]
    requires Split(path)[0] == "items" && Split(keys)[0] == "*"
    ensures LocatedIn(t, roots, path, Some(1)) == Some(None)
    ensures LocatedIn(t, roots, keys, Some(1)).None?
  {
    assert HoldersOf(roots, "items") == {};
    assert HoldersOf(roots, "*") == {};
    assert Nearest(t, {}, 1) == None;
  }

  /**
   * `SetValue` stores at the resolved path but notifies the key text as the
   * caller wrote it.  Under an alias group aliased `items.3`, `*.name` is stored
   * at `items.3.name` in the global bucket, yet `Find("*.name")` looks for a root
   * named `*`, finds no bucket and notifies nothing, and a cached
   * `items.3.name` is not dropped: notifying the resolved path finds the bucket
   * and drops it.
   */
  lemma AliasedSetValueMissesItsPath(t: Tree, aliases: map<NodeId, string>, roots: Roots, keys: string)
    requires t == Tree(map[1 := 0], map[0 := 0, 1 := 1]) && aliases == map[1 := "items.3"] && keys == "*.name"
    requires roots == map[None := map["items" := Null]]
    ensures KeyList(t, aliases, keys, Some(1)) == ["items", "3", "name"]
    ensures LocatedIn(t, roots, Join(KeyList(t, aliases, keys, Some(1))), Some(1)) == Some(None)
    ensures LocatedIn(t, roots, keys, Some(1)).None?
    ensures Evicted(Join(KeyList(t, aliases, keys, Some(1))), Join(KeyList(t, aliases, keys, Some(1))), false)
    ensures !Evicted(Join(KeyList(t, aliases, keys, Some(1))), keys, false)
  {
    var segs := ["items", "3", "name"];
    StarNameResolves(t, aliases, keys);
    StarNameSplits(keys);
    ItemsNameSegments(segs);
    GlobalItemsLocation(t, roots, Join(segs), keys);
    StarNameEvictsNothing();
  }

  /** `default(T)` for the value types `GetValue<T>` converts to. */
  function DefaultOf(k: Kind): (r: Value)
    requires IsValueType(k)
    ensures KindOf(map[], r) == k
  {
    match k
    case KBool => Bool(false)
    case KInt => Int(0)
    case KDouble => Double(0, 0)
    case KChar => Char('\0')
  }

  /**
   * `(T)Convert.ChangeType(v, typeof(T))` inside the `try` of `GetValue<T>`: a
   * `FormatException` or `InvalidCastException` gives `default(T)`; an overflow
   * is not caught and escapes.
   */
  function ConvertOrDefault(heap: Heap, v: Value, k: Kind): (r: Outcome<Value>)
    requires IsValueType(k)
    ensures r.Ok? ==> KindOf(heap, r.value) == k
    ensures r.Fault? <==> ChangeType(heap, v, k).OverflowError?
    ensures ChangeType(heap, v, k).Converted? ==> r == Ok(ChangeType(heap, v, k).v)
  {
    match ChangeType(heap, v, k)
    case Converted(x) => Ok(x)
    case FormatError => Ok(DefaultOf(k))
    case CastError => Ok(DefaultOf(k))
    case OverflowError => Fault
  }

  /** `value as T`: the value itself when it has the class type `k`, else null. */
  function CastAs(heap: Heap, v: Value, k: Kind): (r: Value)
    ensures r == Null || KindOf(heap, r) == k
    ensures KindOf(heap, v) == k ==> r == v
  {
    if KindOf(heap, v) == k then v else Null
  }

  /**
   * What `SetValue` reports for a store of `value` at `keyList` over the roots
   * `data`: a null root stores nothing and reports false; a store that raises
   * escapes; otherwise true exactly when the store yields a non-null object.
   */
  function StoredIn(data: map<string, Value>, heap: Heap, keyList: seq<string>, value: Value): Outcome<(Heap, bool)>
    requires |keyList| >= 1
  {
    var root := GetIn(data, keyList[0]);
    if root == Null then Ok((heap, false))
    else match Store(heap, keyList[1..], root, value)
      case Fault => Fault
      case Ok(w) => Ok((w.0, w.1 != Null))
  }

  /**
   * A nested path the store can reach reads back as the stored value: `SetValue`
   * reports true and the path now resolves to `value` as the last slot's
   * declared type converted it.
   */
  lemma StoredInReadsBack(data: map<string, Value>, heap: Heap, keyList: seq<string>, value: Value)
    requires |keyList| >= 2 && Storable(heap, keyList[1..], GetIn(data, keyList[0]), value)
    ensures StoredIn(data, heap, keyList, value).Ok? && StoredIn(data, heap, keyList, value).value.1
    ensures Resolve(data, StoredIn(data, heap, keyList, value).value.0, keyList) ==
      Ok(Landed(heap, keyList[1..], GetIn(data, keyList[0]), value))
  {
    StoreThenWalk(heap, keyList[1..], GetIn(data, keyList[0]), value);
  }

  /** A one-segment path stores nothing: the heap is unchanged and the result says whether `value` is non-null. */
  lemma StoredInRootOnly(data: map<string, Value>, heap: Heap, keyList: seq<string>, value: Value)
    requires |keyList| == 1 && GetIn(data, keyList[0]) != Null
    ensures StoredIn(data, heap, keyList, value) == Ok((heap, value != Null))
  {
  }

  /** The bucket looked up for a non-empty key list is the one holding its first segment. */
  lemma KeyListHead(kl: seq<string>)
    requires |kl| >= 1 && Segments(kl)
    ensures Split(Join(kl))[0] == kl[0]
  {
    SplitJoin(kl);
  }

  // ---------------------------------------------------------------------------
  // Parked registrations

  /** An entry of `_lazyRegister`: the resolved key, the binder and its scope. */
  datatype Parked = Parked(keys: string, binder: BinderId, scope: Option<NodeId>)

  /** The parked registrations under `k`, none when `k` is absent. */
  function ParkedAt(lazy: map<string, seq<Parked>>, k: string): seq<Parked> {
    if k in lazy then lazy[k] else []
  }

  /**
   * The subscribers at `q` after `Register(path, b)`: `b` joins at `path`, and
   * destroyed binders leave the subtree below `path`.
   */
  function AfterRegister(before: set<BinderId>, path: Path, q: Path, b: BinderId, live: set<BinderId>): set<BinderId> {
    if q == path then before * live + {b}
    else if IsPrefix(path, q) then before * live
    else before
  }

  /**
   * Re-registering `e` over the roots `roots` would reach a bucket (or do
   * nothing, for a destroyed binder or an empty key) rather than park it again.
   */
  predicate Reattaches(t: Tree, aliases: map<NodeId, string>, roots: Roots, e: Parked, live: set<BinderId>)
    requires t.Valid()
  {
    e.binder !in live || e.keys == ""
    || LocatedIn(t, roots, ResolvedKey(t, aliases, e.keys, e.scope), e.scope).Some?
  }

  /**
   * Where re-registering `e` over `roots` puts it: the scope of the bucket found
   * for its resolved key (the global one when none is) and the resolved path.
   */
  function Spot(t: Tree, aliases: map<NodeId, string>, roots: Roots, e: Parked): (Option<NodeId>, Path)
    requires t.Valid()
  {
    var rk := ResolvedKey(t, aliases, e.keys, e.scope);
    var loc := LocatedIn(t, roots, rk, e.scope);
    (if loc.Some? then loc.value else None, Split(rk))
  }

  /** The entries parked under a key that starts with `key`: the ones `Set(key, ...)` re-registers. */
  ghost function Due(parked: map<string, seq<Parked>>, key: string): (r: set<Parked>)
    ensures forall k, i :: k in parked && StartsWith(k, key) && 0 <= i < |parked[k]| ==> parked[k][i] in r
  {
    assert forall k, i :: k in parked && StartsWith(k, key) && 0 <= i < |parked[k]| ==> parked[k][i] in parked[k];
    set k, e | k in parked && StartsWith(k, key) && e in parked[k] :: e
  }

  /**
   * The binders among `es` that re-registering over `roots` puts at `q` in the
   * trie of the bucket of scope `s`: the live ones with a key whose `Spot` is `(s, q)`.
   */
  ghost function Joining(t: Tree, aliases: map<NodeId, string>, roots: Roots, es: set<Parked>, live: set<BinderId>,
                         s: Option<NodeId>, q: Path): set<BinderId>
    requires t.Valid()
  {
    set e | e in es && e.binder in live && e.keys != "" && Spot(t, aliases, roots, e) == (s, q) :: e.binder
  }

  /** The entries of a parked list, as a set. */
  ghost function Entries(ps: seq<Parked>): (r: set<Parked>)
    ensures forall i :: 0 <= i < |ps| ==> ps[i] in r
  {
    set e | e in ps
  }

  lemma DueHolds(parked: map<string, seq<Parked>>, key: string, k: string)
    requires k in parked && StartsWith(k, key)
    ensures Entries(parked[k]) <= Due(parked, key)
  {
  }

  /** Registering `e` adds at most `e`'s own binder, and only at its `Spot`. */
  lemma RegisterBound(t: Tree, aliases: map<NodeId, string>, roots: Roots, e: Parked, live: set<BinderId>,
                      rk: string, loc: Option<Option<NodeId>>, s: Option<NodeId>, q: Path,
                      before: set<BinderId>, after: set<BinderId>)
    requires t.Valid()
    requires rk == ResolvedKey(t, aliases, e.keys, e.scope) && loc == LocatedIn(t, roots, rk, e.scope)
    requires after == if e.binder in live && e.keys != "" && loc == Some(s)
      then AfterRegister(before, Split(rk), q, e.binder, live) else before
    ensures after <= before + Joining(t, aliases, roots, {e}, live, s, q)
    ensures before * live <= after
    ensures e.binder in live && e.keys != "" && loc == Some(s) && q == Split(rk) ==> e.binder in after
  {
    if e.binder in live && e.keys != "" && loc == Some(s) && q == Split(rk) {
      assert Spot(t, aliases, roots, e) == (s, q);
      assert e.binder in Joining(t, aliases, roots, {e}, live, s, q);
    }
  }

  lemma JoiningGrows(t: Tree, aliases: map<NodeId, string>, roots: Roots, a: set<Parked>, b: set<Parked>,
                     live: set<BinderId>, s: Option<NodeId>, q: Path)
    requires t.Valid() && a <= b
    ensures Joining(t, aliases, roots, a, live, s, q) <= Joining(t, aliases, roots, b, live, s, q)
  {
  }

  // ---------------------------------------------------------------------------
  // Rebuild scheduling

  /** One `DataBinder.Rebuild()` started by `Execute`: its wave, its depth bucket and the binder. */
  datatype Run = Run(wave: nat, depth: int, binder: BinderId)

  predicate Listed(list: map<int, set<BinderId>>, d: int, b: BinderId) {
    d in list && b in list[d]
  }

  /**
   * A binder `Execute` may run from depth `d`: it is not destroyed, and it is
   * active and enabled unless `force` is set and `d` is 0.
   */
  predicate Eligible(b: BinderId, d: int, force: bool, live: set<BinderId>, active: set<BinderId>) {
    b in live && (b in active || (force && d == 0))
  }

  function RanSet(ran: seq<Run>): set<BinderId> {
    set i | 0 <= i < |ran| :: ran[i].binder
  }

  predicate DistinctBinders(ran: seq<Run>) {
    forall i, j :: 0 <= i < j < |ran| ==> ran[i].binder != ran[j].binder
  }

  /** Waves in order, and ascending depth within a wave. */
  predicate Ordered(ran: seq<Run>) {
    forall i, j :: 0 <= i < j < |ran| ==>
      ran[i].wave < ran[j].wave || (ran[i].wave == ran[j].wave && ran[i].depth <= ran[j].depth)
  }

  /** `b` was marked dirty by a rebuild of `runs`. */
  predicate DirtiedBy(runs: seq<Run>, dirties: BinderId -> set<BinderId>, b: BinderId) {
    exists k :: 0 <= k < |runs| && b in dirties(runs[k].binder)
  }

  /** `b` was marked dirty by a rebuild of wave `w`. */
  predicate DirtiedIn(ran: seq<Run>, dirties: BinderId -> set<BinderId>, w: nat, b: BinderId) {
    exists k :: 0 <= k < |ran| && ran[k].wave == w && b in dirties(ran[k].binder)
  }

  /** A finite non-empty set of depths has a least element. */
  lemma {:induction false} MinExists(s: set<int>)
    requires s != {}
    ensures exists d :: d in s && forall e :: e in s ==> d <= e
    decreases |s|
  {
    assert exists y :: y in s by {
      if forall y :: y !in s {
        assert false;
      }
    }
    var x :| x in s;
    var r := s - {x};
    if r == {} {
      assert forall e :: e in s ==> e == x || e in r;
    } else {
      MinExists(r);
      var m :| m in r && forall e :: e in r ==> m <= e;
      var least := if x < m then x else m;
      forall e | e in s ensures least <= e {
        if e != x {
          assert e in r;
        }
      }
      assert least in s;
    }
  }

  lemma RanSetAppend(a: seq<Run>, b: seq<Run>)
    ensures RanSet(a + b) == RanSet(a) + RanSet(b)
  {
    forall x | x in RanSet(a + b) ensures x in RanSet(a) + RanSet(b) {
      var i :| 0 <= i < |a + b| && (a + b)[i].binder == x;
      if i >= |a| {
        assert b[i - |a|].binder == x;
      }
    }
    forall x | x in RanSet(a) + RanSet(b) ensures x in RanSet(a + b) {
      if x in RanSet(a) {
        var i :| 0 <= i < |a| && a[i].binder == x;
        assert (a + b)[i].binder == x;
      } else {
        var i :| 0 <= i < |b| && b[i].binder == x;
        assert (a + b)[|a| + i].binder == x;
      }
    }
  }

  lemma RanSetSingle(r: Run)
    ensures RanSet([r]) == {r.binder}
  {
    assert [r][0] == r;
  }

  lemma DirtiedByAppend(a: seq<Run>, b: seq<Run>, dirties: BinderId -> set<BinderId>)
    ensures forall x :: DirtiedBy(a + b, dirties, x) <==> DirtiedBy(a, dirties, x) || DirtiedBy(b, dirties, x)
  {
    forall x | DirtiedBy(a + b, dirties, x) ensures DirtiedBy(a, dirties, x) || DirtiedBy(b, dirties, x) {
      var k :| 0 <= k < |a + b| && x in dirties((a + b)[k].binder);
      if k < |a| {
        assert a[k] == (a + b)[k];
      } else {
        assert b[k - |a|] == (a + b)[k];
      }
    }
    forall x | DirtiedBy(a, dirties, x) ensures DirtiedBy(a + b, dirties, x) {
      var k :| 0 <= k < |a| && x in dirties(a[k].binder);
      assert (a + b)[k] == a[k];
    }
    forall x | DirtiedBy(b, dirties, x) ensures DirtiedBy(a + b, dirties, x) {
      var k :| 0 <= k < |b| && x in dirties(b[k].binder);
      assert (a + b)[|a| + k] == b[k];
    }
  }

  lemma DirtiedInExtend(a: seq<Run>, b: seq<Run>, dirties: BinderId -> set<BinderId>)
    ensures forall w, x :: DirtiedIn(a, dirties, w, x) ==> DirtiedIn(a + b, dirties, w, x)
  {
    forall w, x | DirtiedIn(a, dirties, w, x) ensures DirtiedIn(a + b, dirties, w, x) {
      var k :| 0 <= k < |a| && a[k].wave == w && x in dirties(a[k].binder);
      assert (a + b)[k] == a[k];
    }
  }

  lemma DirtiedByIn(a: seq<Run>, runs: seq<Run>, dirties: BinderId -> set<BinderId>, w: nat)
    requires forall i :: 0 <= i < |runs| ==> runs[i].wave == w
    ensures forall x :: DirtiedBy(runs, dirties, x) ==> DirtiedIn(a + runs, dirties, w, x)
  {
    forall x | DirtiedBy(runs, dirties, x) ensures DirtiedIn(a + runs, dirties, w, x) {
      var k :| 0 <= k < |runs| && x in dirties(runs[k].binder);
      assert (a + runs)[|a| + k] == runs[k];
    }
  }

  /** The rebuilds so far: earlier waves only, in order, each binder once, each one allowed to run. */
  ghost predicate WellFormed(ran: seq<Run>, wave: nat, completed0: set<BinderId>,
                       force: bool, live: set<BinderId>, active: set<BinderId>) {
    (forall i :: 0 <= i < |ran| ==> ran[i].wave < wave)
    && Ordered(ran) && DistinctBinders(ran)
    && (forall i :: 0 <= i < |ran| ==>
          ran[i].binder !in completed0 && Eligible(ran[i].binder, ran[i].depth, force, live, active))
  }

  /** Wave 0 runs what was queued before `Execute`; wave `w + 1` runs what wave `w` dirtied. */
  ghost predicate FromQueue(ran: seq<Run>, list0: map<int, set<BinderId>>, depthOf: BinderId -> int,
                      dirties: BinderId -> set<BinderId>) {
    (forall i :: 0 <= i < |ran| && ran[i].wave == 0 ==> Listed(list0, ran[i].depth, ran[i].binder))
    && (forall i :: 0 <= i < |ran| && ran[i].wave > 0 ==>
          ran[i].depth == depthOf(ran[i].binder) && DirtiedIn(ran, dirties, ran[i].wave - 1, ran[i].binder))
  }

  /** The queue at the start of wave `wave`. */
  ghost predicate Pending(list: map<int, set<BinderId>>, ran: seq<Run>, wave: nat, list0: map<int, set<BinderId>>,
                    depthOf: BinderId -> int, dirties: BinderId -> set<BinderId>) {
    (wave == 0 ==> list == list0 && ran == [])
    && (wave > 0 ==> forall d, b :: Listed(list, d, b) ==> d == depthOf(b) && DirtiedIn(ran, dirties, wave - 1, b))
  }

  /** Every eligible binder queued or dirtied so far has run, was completed before, or is still queued. */
  ghost predicate NoneForgotten(list: map<int, set<BinderId>>, ran: seq<Run>, wave: nat, list0: map<int, set<BinderId>>,
                          completed0: set<BinderId>, force: bool, live: set<BinderId>, active: set<BinderId>,
                          depthOf: BinderId -> int, dirties: BinderId -> set<BinderId>) {
    (wave > 0 ==> forall d, b :: Listed(list0, d, b) && Eligible(b, d, force, live, active) ==>
       b in completed0 || b in RanSet(ran))
    && (forall i, b :: 0 <= i < |ran| && b in dirties(ran[i].binder) && Eligible(b, depthOf(b), force, live, active) ==>
       b in completed0 || b in RanSet(ran) || Listed(list, depthOf(b), b))
  }

  /** What `RunWave` promises about the rebuilds of one wave. */
  ghost predicate WaveRuns(runs: seq<Run>, current: map<int, set<BinderId>>, wave: nat, completed: set<BinderId>,
                     force: bool, live: set<BinderId>, active: set<BinderId>) {
    (forall i :: 0 <= i < |runs| ==>
       runs[i].wave == wave && Listed(current, runs[i].depth, runs[i].binder)
       && runs[i].binder !in completed && Eligible(runs[i].binder, runs[i].depth, force, live, active))
    && (forall i, j :: 0 <= i < j < |runs| ==> runs[i].depth <= runs[j].depth)
    && DistinctBinders(runs)
  }

  lemma WaveKeepsWellFormed(ran: seq<Run>, runs: seq<Run>, current: map<int, set<BinderId>>, wave: nat,
                            completed0: set<BinderId>, force: bool, live: set<BinderId>, active: set<BinderId>)
    requires WellFormed(ran, wave, completed0, force, live, active)
    requires WaveRuns(runs, current, wave, completed0 + RanSet(ran), force, live, active)
    ensures WellFormed(ran + runs, wave + 1, completed0, force, live, active)
  {
    var all := ran + runs;
    assert forall i :: 0 <= i < |ran| ==> all[i] == ran[i];
    assert forall i :: |ran| <= i < |all| ==> all[i] == runs[i - |ran|];
    forall i, j | 0 <= i < j < |all| ensures all[i].binder != all[j].binder {
      if i < |ran| && j >= |ran| {
        assert all[i].binder in RanSet(ran);
      }
    }
  }

  lemma WaveKeepsFromQueue(ran: seq<Run>, runs: seq<Run>, current: map<int, set<BinderId>>, wave: nat,
                           list0: map<int, set<BinderId>>, completed: set<BinderId>, force: bool, live: set<BinderId>,
                           active: set<BinderId>, depthOf: BinderId -> int, dirties: BinderId -> set<BinderId>)
    requires FromQueue(ran, list0, depthOf, dirties)
    requires Pending(current, ran, wave, list0, depthOf, dirties)
    requires WaveRuns(runs, current, wave, completed, force, live, active)
    ensures FromQueue(ran + runs, list0, depthOf, dirties)
  {
    var all := ran + runs;
    DirtiedInExtend(ran, runs, dirties);
    assert forall i :: 0 <= i < |ran| ==> all[i] == ran[i];
    assert forall i :: |ran| <= i < |all| ==> all[i] == runs[i - |ran|];
  }

  lemma WaveKeepsPending(ran: seq<Run>, runs: seq<Run>, next: map<int, set<BinderId>>, wave: nat,
                         list0: map<int, set<BinderId>>, depthOf: BinderId -> int, dirties: BinderId -> set<BinderId>)
    requires forall i :: 0 <= i < |runs| ==> runs[i].wave == wave
    requires forall e, x :: Listed(next, e, x) <==> e == depthOf(x) && DirtiedBy(runs, dirties, x)
    ensures Pending(next, ran + runs, wave + 1, list0, depthOf, dirties)
  {
    DirtiedByIn(ran, runs, dirties, wave);
  }

  lemma WaveKeepsNoneForgotten(ran: seq<Run>, runs: seq<Run>, current: map<int, set<BinderId>>,
                               next: map<int, set<BinderId>>, wave: nat, list0: map<int, set<BinderId>>,
                               completed0: set<BinderId>, force: bool, live: set<BinderId>, active: set<BinderId>,
                               depthOf: BinderId -> int, dirties: BinderId -> set<BinderId>)
    requires NoneForgotten(current, ran, wave, list0, completed0, force, live, active, depthOf, dirties)
    requires wave == 0 ==> current == list0
    requires forall d, b :: Listed(current, d, b) && Eligible(b, d, force, live, active) ==>
      b in completed0 + RanSet(ran) + RanSet(runs)
    requires forall e, x :: Listed(next, e, x) <==> e == depthOf(x) && DirtiedBy(runs, dirties, x)
    ensures NoneForgotten(next, ran + runs, wave + 1, list0, completed0, force, live, active, depthOf, dirties)
  {
    var all := ran + runs;
    RanSetAppend(ran, runs);
    forall i, b | 0 <= i < |all| && b in dirties(all[i].binder) && Eligible(b, depthOf(b), force, live, active)
      ensures b in completed0 || b in RanSet(all) || Listed(next, depthOf(b), b)
    {
      if i < |ran| {
        assert all[i] == ran[i];
      } else {
        assert runs[i - |ran|] == all[i];
        assert DirtiedBy(runs, dirties, b);
      }
    }
  }

  /** The binders a wave dirties belong to the universe when the queue and `dirties` stay inside it. */
  lemma WaveStaysInUniverse(runs: seq<Run>, current: map<int, set<BinderId>>, next: map<int, set<BinderId>>,
                            dirties: BinderId -> set<BinderId>, universe: set<BinderId>)
    requires forall d :: d in current ==> current[d] <= universe
    requires forall b :: b in universe ==> dirties(b) <= universe
    requires forall i :: 0 <= i < |runs| ==> Listed(current, runs[i].depth, runs[i].binder)
    requires forall e, x :: Listed(next, e, x) ==> DirtiedBy(runs, dirties, x)
    ensures forall d :: d in next ==> next[d] <= universe
  {
    forall d, x | d in next && x in next[d] ensures x in universe {
      assert Listed(next, d, x);
      var k :| 0 <= k < |runs| && x in dirties(runs[k].binder);
      assert runs[k].binder in current[runs[k].depth];
    }
  }

  /** The invariant of `Execute`'s loop: the queue `list` and completed set after `wave` waves. */
  ghost predicate Draining(list: map<int, set<BinderId>>, completed: set<BinderId>, ran: seq<Run>, wave: nat,
                           list0: map<int, set<BinderId>>, completed0: set<BinderId>,
                           force: bool, live: set<BinderId>, active: set<BinderId>,
                           depthOf: BinderId -> int, dirties: BinderId -> set<BinderId>, universe: set<BinderId>) {
    (forall d :: d in list ==> list[d] <= universe)
    && completed == completed0 + RanSet(ran)
    && WellFormed(ran, wave, completed0, force, live, active)
    && FromQueue(ran, list0, depthOf, dirties)
    && Pending(list, ran, wave, list0, depthOf, dirties)
    && NoneForgotten(list, ran, wave, list0, completed0, force, live, active, depthOf, dirties)
  }

  /**
   * One wave of `Execute` keeps its invariant, and a wave that runs anything
   * completes a binder of the universe that had not been completed.
   */
  lemma WaveStep(current: map<int, set<BinderId>>, next: map<int, set<BinderId>>, completed: set<BinderId>,
                 ran: seq<Run>, runs: seq<Run>, wave: nat, list0: map<int, set<BinderId>>, completed0: set<BinderId>,
                 force: bool, live: set<BinderId>, active: set<BinderId>,
                 depthOf: BinderId -> int, dirties: BinderId -> set<BinderId>, universe: set<BinderId>)
    requires Draining(current, completed, ran, wave, list0, completed0, force, live, active, depthOf, dirties, universe)
    requires forall b :: b in universe ==> dirties(b) <= universe
    requires forall i :: 0 <= i < |runs| ==>
      runs[i].wave == wave && Listed(current, runs[i].depth, runs[i].binder)
      && runs[i].binder !in completed && Eligible(runs[i].binder, runs[i].depth, force, live, active)
    requires forall i, j :: 0 <= i < j < |runs| ==> runs[i].depth <= runs[j].depth
    requires DistinctBinders(runs)
    requires forall d, b :: Listed(current, d, b) && Eligible(b, d, force, live, active) ==>
      b in completed + RanSet(runs)
    requires forall e, x :: Listed(next, e, x) <==>
      Listed(map[], e, x) || (e == depthOf(x) && DirtiedBy(runs, dirties, x))
    ensures Draining(next, completed + RanSet(runs), ran + runs, wave + 1, list0, completed0,
                     force, live, active, depthOf, dirties, universe)
    ensures runs != [] ==> runs[0].binder in universe - completed
  {
    assert WaveRuns(runs, current, wave, completed, force, live, active);
    assert forall e, x :: Listed(next, e, x) <==> e == depthOf(x) && DirtiedBy(runs, dirties, x);
    WaveKeepsWellFormed(ran, runs, current, wave, completed0, force, live, active);
    WaveKeepsFromQueue(ran, runs, current, wave, list0, completed, force, live, active, depthOf, dirties);
    WaveKeepsPending(ran, runs, next, wave, list0, depthOf, dirties);
    WaveKeepsNoneForgotten(ran, runs, current, next, wave, list0, completed0, force, live, active, depthOf, dirties);
    WaveStaysInUniverse(runs, current, next, dirties, universe);
    RanSetAppend(ran, runs);
    if runs != [] {
      assert runs[0].binder in current[runs[0].depth];
    }
  }

  /** Once the queue is empty, the invariant gives everything `Execute` promises. */
  lemma DrainedAll(completed: set<BinderId>, ran: seq<Run>, wave: nat, list0: map<int, set<BinderId>>,
                   completed0: set<BinderId>, force: bool, live: set<BinderId>, active: set<BinderId>,
                   depthOf: BinderId -> int, dirties: BinderId -> set<BinderId>, universe: set<BinderId>)
    requires Draining(map[], completed, ran, wave, list0, completed0, force, live, active, depthOf, dirties, universe)
    ensures Ordered(ran) && DistinctBinders(ran)
    ensures forall i :: 0 <= i < |ran| ==>
      ran[i].binder !in completed0 && Eligible(ran[i].binder, ran[i].depth, force, live, active)
    ensures forall i :: 0 <= i < |ran| && ran[i].wave == 0 ==> Listed(list0, ran[i].depth, ran[i].binder)
    ensures forall i :: 0 <= i < |ran| && ran[i].wave > 0 ==>
      ran[i].depth == depthOf(ran[i].binder) && DirtiedIn(ran, dirties, ran[i].wave - 1, ran[i].binder)
    ensures forall d, b :: Listed(list0, d, b) && Eligible(b, d, force, live, active) ==>
      b in completed0 || b in RanSet(ran)
    ensures forall i, b :: 0 <= i < |ran| && b in dirties(ran[i].binder) && Eligible(b, depthOf(b), force, live, active) ==>
      b in completed0 || b in RanSet(ran)
  {
    if wave == 0 {
      assert list0 == map[];
    }
  }

  /**
   * The invariant of `RunWave`'s loop once the depths outside `depths` are done:
   * the runs so far come from those depths in ascending order, each binder at
   * most once, and every eligible binder listed there has run.
   */
  ghost predicate WaveSoFar(runs: seq<Run>, depths: set<int>, current: map<int, set<BinderId>>, wave: nat,
                            completed0: set<BinderId>, force: bool, live: set<BinderId>, active: set<BinderId>) {
    depths <= current.Keys
    && (forall i :: 0 <= i < |runs| ==>
          runs[i].wave == wave && Listed(current, runs[i].depth, runs[i].binder)
          && runs[i].depth !in depths && (forall e :: e in depths ==> runs[i].depth < e)
          && runs[i].binder !in completed0 && Eligible(runs[i].binder, runs[i].depth, force, live, active))
    && (forall i, j :: 0 <= i < j < |runs| ==> runs[i].depth <= runs[j].depth)
    && DistinctBinders(runs)
    && (forall d, b :: d !in depths && Listed(current, d, b) && Eligible(b, d, force, live, active) ==>
          b in completed0 + RanSet(runs))
  }

  /** Running the smallest pending depth `d` keeps `WaveSoFar`. */
  lemma DepthStep(before: seq<Run>, step: seq<Run>, depths: set<int>, d: int, current: map<int, set<BinderId>>,
                  wave: nat, completed0: set<BinderId>, force: bool, live: set<BinderId>, active: set<BinderId>)
    requires WaveSoFar(before, depths, current, wave, completed0, force, live, active)
    requires d in depths && forall e :: e in depths ==> d <= e
    requires forall i :: 0 <= i < |step| ==>
      step[i].wave == wave && step[i].depth == d && step[i].binder in current[d]
      && step[i].binder !in completed0 + RanSet(before) && Eligible(step[i].binder, d, force, live, active)
    requires DistinctBinders(step)
    requires forall b :: b in current[d] && Eligible(b, d, force, live, active) ==>
      b in completed0 + RanSet(before) + RanSet(step)
    ensures WaveSoFar(before + step, depths - {d}, current, wave, completed0, force, live, active)
  {
    var runs := before + step;
    var rest := depths - {d};
    RanSetAppend(before, step);
    forall i | 0 <= i < |runs|
      ensures runs[i].wave == wave && Listed(current, runs[i].depth, runs[i].binder)
        && runs[i].depth !in rest && (forall e :: e in rest ==> runs[i].depth < e)
        && runs[i].binder !in completed0 && Eligible(runs[i].binder, runs[i].depth, force, live, active)
    {
      if i >= |before| {
        assert runs[i] == step[i - |before|];
      } else {
        assert runs[i] == before[i];
      }
    }
    forall i, j | 0 <= i < j < |runs| ensures runs[i].depth <= runs[j].depth {
      if j >= |before| {
        assert runs[j] == step[j - |before|];
        if i >= |before| {
          assert runs[i] == step[i - |before|];
        } else {
          assert runs[i] == before[i];
        }
      } else {
        assert runs[i] == before[i] && runs[j] == before[j];
      }
    }
    forall i, j | 0 <= i < j < |runs| ensures runs[i].binder != runs[j].binder {
      if j >= |before| && i < |before| {
        assert runs[i] == before[i] && runs[j] == step[j - |before|];
        assert runs[i].binder in RanSet(before);
      } else if j >= |before| {
        assert runs[i] == step[i - |before|] && runs[j] == step[j - |before|];
      } else {
        assert runs[i] == before[i] && runs[j] == before[j];
      }
    }
  }

  /** Completing one more binder of the universe shrinks what is left of it. */
  lemma Shrinks(universe: set<BinderId>, before: set<BinderId>, after: set<BinderId>, x: BinderId)
    requires before <= after && x in universe && x !in before && x in after
    ensures universe - after < universe - before
  {
    assert x in universe - before && x !in universe - after;
  }

  class DataBinding {
    /** `_references`: one bucket per scope; `None` is the global bucket. */
    var references: map<Option<NodeId>, DataBindingReference>
    /** `_lazyRegister`: registrations whose bucket did not exist yet, by resolved key. */
    var lazy: map<string, seq<Parked>>
    /** `_rebuildList`: the binders to rebuild, by hierarchy depth (iterated in ascending order). */
    var rebuildList: map<int, set<BinderId>>
    /** `_rebuildCompleted`: the binders already rebuilt during the current `Execute`. */
    var rebuildCompleted: set<BinderId>

    /** The buckets of `references`. */
    ghost var buckets: set<DataBindingReference>
    /** The dependency tries of those buckets. */
    ghost var tries: set<DataReference>
    /** The root values of every bucket, by scope. */
    ghost var roots: Roots

    /**
     * Every bucket is well formed and holds the roots recorded for its scope, and
     * no two scopes share a bucket or a trie.
     */
    ghost predicate Valid()
      reads this`references, this`buckets, this`tries, this`roots, tries, buckets`data
    {
      roots.Keys == references.Keys
      && (forall s :: s in references ==>
         references[s] in buckets && references[s].reference in tries && references[s].data == roots[s])
      && (forall r :: r in tries ==> r.Valid())
      && (forall s, s' :: s in references && s' in references && s != s' ==>
            references[s] != references[s'] && references[s].reference != references[s'].reference)
    }

    /** The root values of every bucket. */
    ghost function Roots(): Roots
      reads this`roots
    {
      roots
    }

    /** The binders registered at `q` in the trie of the bucket of scope `s`. */
    ghost function BindersOf(s: Option<NodeId>, q: Path): set<BinderId>
      reads this`references, this`tries, tries
    {
      if s in references && references[s].reference in tries then references[s].reference.BindersAt(q) else {}
    }

    /** The nodes of the trie of the bucket of scope `s`. */
    ghost function NodesOf(s: Option<NodeId>): seq<Path>
      reads this`references, this`tries, tries
    {
      if s in references && references[s].reference in tries then references[s].reference.nodes else []
    }

    /** The bucket `Find(key, scope)` returns. */
    ghost function Located(t: Tree, key: string, scope: Option<NodeId>): Option<Option<NodeId>>
      requires t.Valid()
      reads this`roots
    {
      LocatedIn(t, Roots(), key, scope)
    }

    /**
     * `e` is registered where `Register` puts it: a live binder with a non-empty
     * key sits at the resolved path of the trie of the bucket found for that path.
     */
    ghost predicate Attached(t: Tree, aliases: map<NodeId, string>, e: Parked, live: set<BinderId>)
      requires t.Valid()
      reads this`references, this`roots, this`tries, tries
    {
      e.binder in live && e.keys != "" ==>
        Spot(t, aliases, roots, e).0 in references
        && e.binder in BindersOf(Spot(t, aliases, roots, e).0, Spot(t, aliases, roots, e).1)
    }

    /** Every entry parked under a key starting with `key` in `parked` is attached. */
    ghost predicate Flushed(t: Tree, aliases: map<NodeId, string>, parked: map<string, seq<Parked>>, key: string,
                            live: set<BinderId>)
      requires t.Valid()
      reads this`references, this`roots, this`tries, tries
    {
      forall k, i :: k in parked && StartsWith(k, key) && 0 <= i < |parked[k]| ==> Attached(t, aliases, parked[k][i], live)
    }

    /**
     * `marked` is what notifying `key` in the bucket of scope `s` marks: the live
     * binders of the trie nodes the walk of `key` visits.
     */
    ghost predicate Marks(s: Option<NodeId>, key: string, strict: bool, live: set<BinderId>, marked: set<BinderId>)
      reads this`references, this`tries, tries
    {
      forall b :: b in marked <==> b in live && exists q :: q in Visited(NodesOf(s), key, strict) && b in BindersOf(s, q)
    }

    /** The state before the first `Set`: no buckets, nothing parked, nothing queued. */
    constructor ()
      ensures Valid() && references == map[] && lazy == map[]
      ensures rebuildList == map[] && rebuildCompleted == {}
    {
      references := map[];
      buckets := {};
      roots := map[];
      tries := {};
      lazy := map[];
      rebuildList := map[];
      rebuildCompleted := {};
    }

    /**
     * `Find(keys, baseObject)`: walk from the scope up the parent chain and return
     * the first bucket holding the key's root name, else the global bucket when
     * it holds it.
     */
    method Find(t: Tree, key: string, scope: Option<NodeId>) returns (r: Option<Option<NodeId>>)
      requires t.Valid() && Valid()
      ensures r == Located(t, key, scope)
      ensures r.Some? ==> r.value in references && references[r.value].Exist(Split(key)[0])
    {
      var head := Split(key)[0];
      ghost var holders := HoldersOf(Roots(), head);
      if scope.Some? {
        var node := scope.value;
        while true
          invariant Nearest(t, holders, node) == Nearest(t, holders, scope.value)
          decreases t.Rank(node)
        {
          HoldersOfMember(Roots(), head, node);
          if Some(node) in references && references[Some(node)].Exist(head) {
            return Some(Some(node));
          }
          if node !in t.parent {
            break;
          }
          node := t.parent[node];
        }
      }
      if None in references && references[None].Exist(head) {
        return Some(None);
      }
      return None;
    }

    /** `Get(key, baseObject)`: the root value `key` of the bucket found for it, null when none is. */
    method Get(t: Tree, key: string, scope: Option<NodeId>) returns (r: Value)
      requires t.Valid() && Valid()
      ensures Located(t, key, scope).None? ==> r == Null
      ensures Located(t, key, scope).Some? ==> r == GetIn(Roots()[Located(t, key, scope).value], key)
    {
      var loc := Find(t, key, scope);
      if loc.None? {
        return Null;
      }
      r := references[loc.value].Get(key);
    }

    /** `Exist(key, baseObject)`: some bucket on the way up holds the key's root name. */
    method Exist(t: Tree, key: string, scope: Option<NodeId>) returns (r: bool)
      requires t.Valid() && Valid()
      ensures r <==> Located(t, key, scope).Some?
      ensures r <==> (None in Roots() && Split(key)[0] in Roots()[None])
                     || (scope.Some? && exists i :: 0 <= i < |Chain(t, scope.value)|
                                                   && Holds(Roots(), Chain(t, scope.value)[i], Split(key)[0]))
    {
      var loc := Find(t, key, scope);
      LocatedIsNearestHolder(t, Roots(), key, scope);
      r := loc.Some?;
    }

    /**
     * `Unset(key, baseObject)`: remove the root `key` from the bucket found for
     * it; no notification, and the cache keeps what it derived from the root.
     */
    method Unset(t: Tree, key: string, scope: Option<NodeId>)
      requires t.Valid() && Valid()
      modifies this`roots, buckets`data
      ensures Valid()
      ensures Roots() == if old(Located(t, key, scope)).Some?
        then old(Roots())[old(Located(t, key, scope)).value := old(Roots())[old(Located(t, key, scope)).value] - {key}]
        else old(Roots())
    {
      var loc := Find(t, key, scope);
      if loc.Some? {
        Drop(loc.value, references[loc.value], key);
      }
    }

    /** `reference.Remove(key)` on the bucket of scope `s`. */
    method Drop(s: Option<NodeId>, bucket: DataBindingReference, key: string)
      requires Valid() && s in references && references[s] == bucket
      modifies this`roots, bucket`data
      ensures Valid()
      ensures roots == old(roots)[s := old(roots)[s] - {key}]
      ensures !bucket.Exist(key)
    {
      bucket.Remove(key);
      roots := roots[s := roots[s] - {key}];
    }

    /**
     * `Set(key, value, baseObject)`: store the root in the scope's bucket (created
     * when missing), re-register and drop every parked list whose key starts with
     * `key`, then notify `key` non-strictly.  The parked entries must reach a
     * bucket once the value is stored (see `FlushLazy`).
     */
    method Set(t: Tree, aliases: map<NodeId, string>, key: string, value: Value, scope: Option<NodeId>,
               live: set<BinderId>, depthOf: BinderId -> int) returns (marked: set<BinderId>)
      requires t.Valid() && Valid()
      requires forall k, i :: k in lazy && StartsWith(k, key) && 0 <= i < |lazy[k]| ==>
        Reattaches(t, aliases, Stored(Roots(), scope, key, value), lazy[k][i], live)
      modifies this`references, this`buckets, this`tries, this`roots, this`lazy, this`rebuildList, this`rebuildCompleted
      modifies buckets, tries
      ensures Valid()
      ensures Roots() == Stored(old(Roots()), scope, key, value)
      ensures lazy == map k | k in old(lazy) && !StartsWith(k, key) :: old(lazy)[k]
      ensures Flushed(t, aliases, old(lazy), key, live)
      ensures forall b: DataBindingReference :: old(allocated(b)) && (Located(t, key, scope).None? || b != references[Located(t, key, scope).value]) ==>
        b.cache == old(b.cache)
      ensures Located(t, key, scope).Some? ==>
        var c := references[Located(t, key, scope).value];
        (c in old(buckets) ==> c.cache == Cleared(old(c.cache), key, false))
        && (c !in old(buckets) ==> c.cache == map[])
      ensures Located(t, key, scope).Some? ==> Marks(Located(t, key, scope).value, key, false, live, marked)
      ensures Located(t, key, scope).None? ==> marked == {}
      ensures forall d, x :: Listed(rebuildList, d, x) <==> Listed(old(rebuildList), d, x) || (x in marked && d == depthOf(x))
      ensures rebuildCompleted == old(rebuildCompleted)
      ensures forall s, q :: s in old(references) ==> old(BindersOf(s, q)) * live <= BindersOf(s, q)
      ensures forall s, q :: s in references ==>
        BindersOf(s, q) <= old(BindersOf(s, q)) + Joining(t, aliases, Roots(), Due(old(lazy), key), live, s, q)
    {
      Commit(t, aliases, key, value, scope, live);
      marked := Notify(t, key, scope, false, live, depthOf);
    }

    /** A step that leaves the buckets and their tries alone keeps every registration. */
    twostate lemma BindersKept()
      requires old(references) == references && old(tries) == tries && unchanged(tries)
      ensures forall s, q :: s in references ==> BindersOf(s, q) == old(BindersOf(s, q))
    {
    }

    /** The first two steps of `Set`: store the root, then flush the parked registrations under `key`. */
    method Commit(t: Tree, aliases: map<NodeId, string>, key: string, value: Value, scope: Option<NodeId>,
                  live: set<BinderId>)
      requires t.Valid() && Valid()
      requires forall k, i :: k in lazy && StartsWith(k, key) && 0 <= i < |lazy[k]| ==>
        Reattaches(t, aliases, Stored(Roots(), scope, key, value), lazy[k][i], live)
      modifies this`references, this`buckets, this`tries, this`roots, this`lazy, buckets`data, tries
      ensures Valid()
      ensures Roots() == Stored(old(Roots()), scope, key, value)
      ensures lazy == map k | k in old(lazy) && !StartsWith(k, key) :: old(lazy)[k]
      ensures Flushed(t, aliases, old(lazy), key, live)
      ensures fresh(buckets - old(buckets))
      ensures forall b :: b in buckets - old(buckets) ==> b.cache == map[]
      ensures forall b: DataBindingReference :: old(allocated(b)) ==> b.cache == old(b.cache)
      ensures old(references).Keys <= references.Keys
      ensures forall s, q :: s in old(references) ==> old(BindersOf(s, q)) * live <= BindersOf(s, q)
      ensures forall s, q :: s in references ==>
        BindersOf(s, q) <= old(BindersOf(s, q)) + Joining(t, aliases, Roots(), Due(old(lazy), key), live, s, q)
    {
      Put(key, value, scope);
      FlushLazy(t, aliases, key, live);
    }

    /** The first step of `Set(key, value, baseObject)`: create the scope's bucket when missing, then store the root. */
    method Put(key: string, value: Value, scope: Option<NodeId>)
      requires Valid()
      modifies this`references, this`buckets, this`tries, this`roots, buckets`data
      ensures Valid()
      ensures Roots() == Stored(old(Roots()), scope, key, value)
      ensures fresh(buckets - old(buckets)) && fresh(tries - old(tries))
      ensures forall b :: b in buckets - old(buckets) ==> b.cache == map[]
      ensures old(references).Keys <= references.Keys
      ensures forall s, q :: s in references ==> BindersOf(s, q) == old(BindersOf(s, q))
    {
      StoredAfterAdd(roots, if scope in roots then roots else roots[scope := map[]], scope, key, value);
      var bucket := BucketFor(scope);
      Store(scope, bucket, key, value);
    }

    /** `if (!_references.ContainsKey(baseObject)) _references[baseObject] = new DataBindingReference()`, then that bucket. */
    method BucketFor(scope: Option<NodeId>) returns (bucket: DataBindingReference)
      requires Valid()
      modifies this`references, this`buckets, this`tries, this`roots
      ensures Valid()
      ensures references == old(references)[scope := bucket]
      ensures roots == old(roots) || (scope !in old(roots) && roots == old(roots)[scope := map[]])
      ensures scope in old(references) ==> bucket == old(references[scope])
      ensures forall b :: b in buckets - old(buckets) ==> b.cache == map[]
      ensures fresh(buckets - old(buckets)) && fresh(tries - old(tries))
      ensures forall s, q :: s in references ==> BindersOf(s, q) == old(BindersOf(s, q))
    {
      if scope !in references {
        AddBucket(scope);
      }
      bucket := references[scope];
    }

    /** `_references[baseObject].Set(keys, value)` on an existing bucket. */
    method Store(scope: Option<NodeId>, bucket: DataBindingReference, key: string, value: Value)
      requires Valid() && scope in references && references[scope] == bucket
      modifies this`roots, bucket`data
      ensures Valid()
      ensures roots == old(roots)[scope := old(roots)[scope][key := value]]
      ensures references == old(references)
      ensures forall s, q :: s in references ==> BindersOf(s, q) == old(BindersOf(s, q))
    {
      bucket.Set(key, value);
      roots := roots[scope := roots[scope][key := value]];
    }

    /** `_references[baseObject] = new DataBindingReference()`: an empty bucket with an empty trie. */
    method AddBucket(scope: Option<NodeId>)
      requires Valid() && scope !in references
      modifies this`references, this`buckets, this`tries, this`roots
      ensures Valid()
      ensures Roots() == old(Roots())[scope := map[]]
      ensures scope in references && fresh(references[scope]) && fresh(references[scope].reference)
      ensures references == old(references)[scope := references[scope]] && references[scope].cache == map[]
      ensures references[scope].reference.binders == map[]
      ensures buckets == old(buckets) + {references[scope]} && tries == old(tries) + {references[scope].reference}
    {
      var bucket := new DataBindingReference();
      references, buckets, tries, roots :=
        references[scope := bucket], buckets + {bucket}, tries + {bucket.reference}, roots[scope := map[]];
    }

    /**
     * `Register(keys, dataBinder, baseObject)`: nothing for a destroyed binder or
     * an empty key; otherwise resolve the aliases, and register the binder in the
     * trie of the bucket found for the resolved key, or park it under that key
     * (duplicates kept) when there is none.  The resolved key is the one
     * `ResolveKey` computes (`ResolvedKey`).
     */
    method Register(t: Tree, aliases: map<NodeId, string>, keys: string, b: BinderId, scope: Option<NodeId>,
                    live: set<BinderId>) returns (ghost rk: string, ghost loc: Option<Option<NodeId>>)
      requires t.Valid() && Valid()
      modifies this`lazy, tries
      ensures Valid()
      ensures rk == ResolvedKey(t, aliases, keys, scope) && loc == old(Located(t, rk, scope))
      ensures lazy == if b in live && keys != "" && loc.None?
        then old(lazy)[rk := ParkedAt(old(lazy), rk) + [Parked(rk, b, scope)]] else old(lazy)
      ensures forall s, q :: s in references ==>
        BindersOf(s, q) == if b in live && keys != "" && loc == Some(s)
          then AfterRegister(old(BindersOf(s, q)), Split(rk), q, b, live) else old(BindersOf(s, q))
      ensures forall s :: s in references ==>
        NodesOf(s) == if b in live && keys != "" && loc == Some(s)
          then old(NodesOf(s)) + Created(old(NodesOf(s)), Split(rk), 1) else old(NodesOf(s))
      ensures forall s, q :: s in references ==>
        BindersOf(s, q) <= old(BindersOf(s, q)) + Joining(t, aliases, Roots(), {Parked(keys, b, scope)}, live, s, q)
      ensures b in live && keys != "" && loc.Some? ==> loc.value in references && b in BindersOf(loc.value, Split(rk))
      ensures forall s, q, x :: s in references && x in live && x in old(BindersOf(s, q)) ==> x in BindersOf(s, q)
    {
      if b !in live || keys == "" {
        rk := ResolvedKey(t, aliases, keys, scope);
        loc := Located(t, rk, scope);
        return;
      }
      var key := ResolvedKey(t, aliases, keys, scope);
      rk := key;
      loc := Lodge(t, key, b, scope, live);
      forall s, q | s in references
        ensures BindersOf(s, q) <= old(BindersOf(s, q)) + Joining(t, aliases, Roots(), {Parked(keys, b, scope)}, live, s, q)
        ensures old(BindersOf(s, q)) * live <= BindersOf(s, q)
        ensures loc == Some(s) && q == Split(rk) ==> b in BindersOf(s, q)
      {
        RegisterBound(t, aliases, Roots(), Parked(keys, b, scope), live, rk, loc, s, q, old(BindersOf(s, q)), BindersOf(s, q));
      }
    }

    /** Find the bucket of the resolved key `key`, then park the binder or register it there. */
    method Lodge(t: Tree, key: string, b: BinderId, scope: Option<NodeId>, live: set<BinderId>)
      returns (ghost loc: Option<Option<NodeId>>)
      requires t.Valid() && Valid()
      modifies this`lazy, tries
      ensures Valid()
      ensures loc == old(Located(t, key, scope))
      ensures lazy == if loc.None? then old(lazy)[key := ParkedAt(old(lazy), key) + [Parked(key, b, scope)]]
                      else old(lazy)
      ensures forall s, q :: s in references ==>
        BindersOf(s, q) == if loc == Some(s) then AfterRegister(old(BindersOf(s, q)), Split(key), q, b, live)
                           else old(BindersOf(s, q))
      ensures forall s :: s in references ==>
        NodesOf(s) == if loc == Some(s) then old(NodesOf(s)) + Created(old(NodesOf(s)), Split(key), 1)
                      else old(NodesOf(s))
    {
      var found := Find(t, key, scope);
      loc := found;
      Place(key, found, b, scope, live);
    }

    /** Park the registration when no bucket was found, else register it in the found bucket's trie. */
    method Place(key: string, found: Option<Option<NodeId>>, b: BinderId, scope: Option<NodeId>, live: set<BinderId>)
      requires Valid() && (found.Some? ==> found.value in references)
      modifies this`lazy, tries
      ensures Valid()
      ensures lazy == if found.None? then old(lazy)[key := ParkedAt(old(lazy), key) + [Parked(key, b, scope)]]
                      else old(lazy)
      ensures forall s, q :: s in references ==>
        BindersOf(s, q) == if found == Some(s) then AfterRegister(old(BindersOf(s, q)), Split(key), q, b, live)
                           else old(BindersOf(s, q))
      ensures forall s :: s in references ==>
        NodesOf(s) == if found == Some(s) then old(NodesOf(s)) + Created(old(NodesOf(s)), Split(key), 1)
                      else old(NodesOf(s))
    {
      if found.None? {
        Park(key, b, scope);
      } else {
        Attach(found.value, key, b, live);
      }
    }

    /** `_lazyRegister[keys].Add((keys, dataBinder, baseObject))`, creating the list when missing. */
    method Park(rk: string, b: BinderId, scope: Option<NodeId>)
      modifies this`lazy
      ensures lazy == old(lazy)[rk := ParkedAt(old(lazy), rk) + [Parked(rk, b, scope)]]
    {
      if rk !in lazy {
        lazy := lazy[rk := []];
      }
      lazy := lazy[rk := lazy[rk] + [Parked(rk, b, scope)]];
    }

    /** `reference.Register(keys, dataBinder)` on the bucket of scope `s`. */
    method Attach(s: Option<NodeId>, key: string, b: BinderId, live: set<BinderId>)
      requires Valid() && s in references
      modifies references[s].reference
      ensures Valid()
      ensures forall s', q :: s' in references ==>
        BindersOf(s', q) == if s' == s then AfterRegister(old(BindersOf(s', q)), Split(key), q, b, live)
                            else old(BindersOf(s', q))
      ensures forall s' :: s' in references ==>
        NodesOf(s') == if s' == s then old(NodesOf(s')) + Created(old(NodesOf(s')), Split(key), 1)
                       else old(NodesOf(s'))
    {
      var bucket := references[s];
      bucket.Register(key, b, live);
      forall s' | s' in references && s' != s ensures references[s'].reference.Valid() {
        assert references[s'].reference != bucket.reference;
      }
      forall s', q | s' in references && s' != s ensures BindersOf(s', q) == old(BindersOf(s', q)) {
        assert references[s'].reference != bucket.reference;
      }
    }

    /**
     * Re-register one parked entry whose bucket now exists: afterwards it is
     * attached, nothing is parked, and no live subscription is lost.
     */
    method Reattach(t: Tree, aliases: map<NodeId, string>, e: Parked, live: set<BinderId>)
      requires t.Valid() && Valid() && Reattaches(t, aliases, Roots(), e, live)
      modifies this`lazy, tries
      ensures Valid() && lazy == old(lazy)
      ensures Attached(t, aliases, e, live)
      ensures forall s, q, x :: s in references && x in live && x in old(BindersOf(s, q)) ==> x in BindersOf(s, q)
      ensures forall s, q :: s in references ==> BindersOf(s, q) <= old(BindersOf(s, q)) + Joining(t, aliases, Roots(), {e}, live, s, q)
    {
      assert e == Parked(e.keys, e.binder, e.scope);
      ghost var rk, loc := Register(t, aliases, e.keys, e.binder, e.scope, live);
      if e.binder in live && e.keys != "" {
        assert loc.Some? && Spot(t, aliases, Roots(), e) == (loc.value, Split(rk));
      }
    }

    /**
     * The lazy flush of `Set(key, ...)`: every parked list whose key starts with
     * `key` is re-registered (in no particular order), then those lists are
     * dropped.  The flushed entries must now reach a bucket: the source would
     * otherwise append to the very list it is enumerating.
     */
    method FlushLazy(t: Tree, aliases: map<NodeId, string>, key: string, live: set<BinderId>)
      requires t.Valid() && Valid()
      requires forall k, i :: k in lazy && StartsWith(k, key) && 0 <= i < |lazy[k]| ==>
        Reattaches(t, aliases, Roots(), lazy[k][i], live)
      modifies this`lazy, tries
      ensures Valid()
      ensures lazy == map k | k in old(lazy) && !StartsWith(k, key) :: old(lazy)[k]
      ensures Flushed(t, aliases, old(lazy), key, live)
      ensures forall s, q, x :: s in references && x in live && x in old(BindersOf(s, q)) ==> x in BindersOf(s, q)
      ensures forall s, q :: s in references ==> BindersOf(s, q) <= old(BindersOf(s, q)) + Joining(t, aliases, Roots(), Due(old(lazy), key), live, s, q)
    {
      FlushAll(t, aliases, key, live);
      DropFlushed(key);
    }

    /** The re-registration loop of the flush; the parked lists stay as they are. */
    method FlushAll(t: Tree, aliases: map<NodeId, string>, key: string, live: set<BinderId>)
      requires t.Valid() && Valid()
      requires forall k, i :: k in lazy && StartsWith(k, key) && 0 <= i < |lazy[k]| ==>
        Reattaches(t, aliases, Roots(), lazy[k][i], live)
      modifies this`lazy, tries
      ensures Valid() && lazy == old(lazy)
      ensures forall k, i :: k in lazy && StartsWith(k, key) && 0 <= i < |lazy[k]| ==>
        Attached(t, aliases, lazy[k][i], live)
      ensures forall s, q, x :: s in references && x in live && x in old(BindersOf(s, q)) ==> x in BindersOf(s, q)
      ensures forall s, q :: s in references ==> BindersOf(s, q) <= old(BindersOf(s, q)) + Joining(t, aliases, Roots(), Due(lazy, key), live, s, q)
    {
      var pending := set k | k in lazy && StartsWith(k, key);
      ghost var done: set<string> := {};
      while pending != {}
        invariant Valid() && lazy == old(lazy) && Roots() == old(Roots())
        invariant forall k :: k in lazy && StartsWith(k, key) <==> k in pending || k in done
        invariant forall k :: k in pending ==> k !in done
        invariant forall d, i :: d in done && d in lazy && 0 <= i < |lazy[d]| ==> Attached(t, aliases, lazy[d][i], live)
        invariant forall s, q, x :: s in references && x in live && x in old(BindersOf(s, q)) ==> x in BindersOf(s, q)
        invariant forall s, q :: s in references ==> BindersOf(s, q) <= old(BindersOf(s, q)) + Joining(t, aliases, Roots(), Due(lazy, key), live, s, q)
        decreases pending
      {
        var k :| k in pending;
        DueHolds(lazy, key, k);
        FlushOne(t, aliases, k, done, live);
        forall s, q ensures Joining(t, aliases, Roots(), Entries(lazy[k]), live, s, q) <= Joining(t, aliases, Roots(), Due(lazy, key), live, s, q) {
          JoiningGrows(t, aliases, Roots(), Entries(lazy[k]), Due(lazy, key), live, s, q);
        }
        pending := pending - {k};
        done := done + {k};
      }
    }

    /** `_lazyRegister.Remove(removeKey)` for every flushed key. */
    method DropFlushed(key: string)
      modifies this`lazy
      ensures lazy == map k | k in old(lazy) && !StartsWith(k, key) :: old(lazy)[k]
    {
      lazy := map k | k in lazy && !StartsWith(k, key) :: lazy[k];
    }

    /** One parked list of the flush: re-register it, keeping the lists already flushed attached. */
    method FlushOne(t: Tree, aliases: map<NodeId, string>, k: string, ghost done: set<string>, live: set<BinderId>)
      requires t.Valid() && Valid() && k in lazy
      requires forall i :: 0 <= i < |lazy[k]| ==> Reattaches(t, aliases, Roots(), lazy[k][i], live)
      requires forall d, i :: d in done && d in lazy && 0 <= i < |lazy[d]| ==> Attached(t, aliases, lazy[d][i], live)
      modifies this`lazy, tries
      ensures Valid() && lazy == old(lazy)
      ensures forall d, i :: d in done + {k} && d in lazy && 0 <= i < |lazy[d]| ==> Attached(t, aliases, lazy[d][i], live)
      ensures forall s, q, x :: s in references && x in live && x in old(BindersOf(s, q)) ==> x in BindersOf(s, q)
      ensures forall s, q :: s in references ==> BindersOf(s, q) <= old(BindersOf(s, q)) + Joining(t, aliases, Roots(), Entries(lazy[k]), live, s, q)
    {
      ghost var r := Roots();
      Reregister(t, aliases, lazy[k], live);
      forall d, i | d in done && d in lazy && 0 <= i < |lazy[d]| && lazy[d][i].binder in live && lazy[d][i].keys != ""
        ensures Spot(t, aliases, r, lazy[d][i]).0 in references
        ensures lazy[d][i].binder in BindersOf(Spot(t, aliases, r, lazy[d][i]).0, Spot(t, aliases, r, lazy[d][i]).1)
      {
        var sp := Spot(t, aliases, r, lazy[d][i]);
        assert sp.0 in references && lazy[d][i].binder in old(BindersOf(sp.0, sp.1));
      }
    }

    /** `foreach (var v in lazyRegister.Value) Register(v.Item1, v.Item2, v.Item3)`. */
    method Reregister(t: Tree, aliases: map<NodeId, string>, entries: seq<Parked>, live: set<BinderId>)
      requires t.Valid() && Valid()
      requires forall i :: 0 <= i < |entries| ==> Reattaches(t, aliases, Roots(), entries[i], live)
      modifies this`lazy, tries
      ensures Valid() && lazy == old(lazy)
      ensures forall i :: 0 <= i < |entries| ==> Attached(t, aliases, entries[i], live)
      ensures forall s, q, x :: s in references && x in live && x in old(BindersOf(s, q)) ==> x in BindersOf(s, q)
      ensures forall s, q :: s in references ==> BindersOf(s, q) <= old(BindersOf(s, q)) + Joining(t, aliases, Roots(), Entries(entries), live, s, q)
    {
      var i := 0;
      while i < |entries|
        invariant i <= |entries| && Valid() && lazy == old(lazy) && Roots() == old(Roots())
        invariant forall j :: 0 <= j < i ==> Attached(t, aliases, entries[j], live)
        invariant forall s, q, x :: s in references && x in live && x in old(BindersOf(s, q)) ==> x in BindersOf(s, q)
        invariant forall s, q :: s in references ==> BindersOf(s, q) <= old(BindersOf(s, q)) + Joining(t, aliases, Roots(), Entries(entries), live, s, q)
      {
        ReattachAt(t, aliases, entries, i, live);
        i := i + 1;
      }
    }

    /** One step of `Reregister`: re-register `entries[i]`, keeping the earlier entries attached. */
    method ReattachAt(t: Tree, aliases: map<NodeId, string>, entries: seq<Parked>, i: nat, live: set<BinderId>)
      requires t.Valid() && Valid() && i < |entries|
      requires Reattaches(t, aliases, Roots(), entries[i], live)
      requires forall j :: 0 <= j < i ==> Attached(t, aliases, entries[j], live)
      modifies this`lazy, tries
      ensures Valid() && lazy == old(lazy)
      ensures forall j :: 0 <= j <= i ==> Attached(t, aliases, entries[j], live)
      ensures forall s, q, x :: s in references && x in live && x in old(BindersOf(s, q)) ==> x in BindersOf(s, q)
      ensures forall s, q :: s in references ==> BindersOf(s, q) <= old(BindersOf(s, q)) + Joining(t, aliases, Roots(), Entries(entries), live, s, q)
    {
      ghost var r := Roots();
      Reattach(t, aliases, entries[i], live);
      forall s, q | s in references ensures BindersOf(s, q) <= old(BindersOf(s, q)) + Joining(t, aliases, Roots(), Entries(entries), live, s, q) {
        JoiningGrows(t, aliases, Roots(), {entries[i]}, Entries(entries), live, s, q);
      }
      forall j | 0 <= j < i && entries[j].binder in live && entries[j].keys != ""
        ensures Spot(t, aliases, r, entries[j]).0 in references
        ensures entries[j].binder in BindersOf(Spot(t, aliases, r, entries[j]).0, Spot(t, aliases, r, entries[j]).1)
      {
        var sp := Spot(t, aliases, r, entries[j]);
        assert sp.0 in references && entries[j].binder in old(BindersOf(sp.0, sp.1));
      }
    }

    /**
     * `Unregister(dataBinder)`: remove the binder from the trie of every bucket,
     * in no particular order; no node is removed.
     */
    method Unregister(b: BinderId)
      requires Valid()
      modifies tries
      ensures Valid()
      ensures forall s, q :: s in references ==> BindersOf(s, q) == old(BindersOf(s, q)) - {b}
      ensures forall s :: s in references ==> NodesOf(s) == old(NodesOf(s))
    {
      var pending := references.Keys;
      while pending != {}
        invariant Valid() && pending <= references.Keys
        invariant forall s, q :: s in references ==>
          BindersOf(s, q) == if s in pending then old(BindersOf(s, q)) else old(BindersOf(s, q)) - {b}
        invariant forall s :: s in references ==> NodesOf(s) == old(NodesOf(s))
        decreases pending
      {
        var s :| s in pending;
        label before:
        UnregisterAt(s, references[s], b);
        forall s', q | s' in references
          ensures BindersOf(s', q) == if s' in pending - {s} then old(BindersOf(s', q)) else old(BindersOf(s', q)) - {b}
        {
          assert BindersOf(s', q) == if s' == s then old@before(BindersOf(s', q)) - {b} else old@before(BindersOf(s', q));
        }
        pending := pending - {s};
      }
    }

    /** `reference.Value.Unregister(dataBinder)` on the bucket of scope `s`. */
    method UnregisterAt(s: Option<NodeId>, bucket: DataBindingReference, b: BinderId)
      requires Valid() && s in references && references[s] == bucket
      modifies bucket.reference
      ensures Valid()
      ensures forall s', q :: s' in references ==>
        BindersOf(s', q) == if s' == s then old(BindersOf(s', q)) - {b} else old(BindersOf(s', q))
      ensures forall s' :: s' in references ==> NodesOf(s') == old(NodesOf(s'))
    {
      bucket.Unregister(b);
      forall s' | s' in references && s' != s ensures references[s'].reference.Valid() {
        assert references[s'].reference != bucket.reference;
      }
      forall s', q | s' in references && s' != s ensures BindersOf(s', q) == old(BindersOf(s', q)) {
        assert references[s'].reference != bucket.reference;
      }
    }

    /**
     * `Release()`: empty the roots and the cache of every scene bucket (the global
     * bucket keeps both), then clear the completed set.  Tries and parked
     * registrations stay.
     */
    method Release()
      requires Valid()
      modifies this`roots, buckets`data, buckets`cache, this`rebuildCompleted
      ensures Valid() && rebuildCompleted == {}
      ensures Roots() == Released(old(Roots()), {})
      ensures forall s :: s in references && s.Some? ==> references[s].cache == map[]
      ensures None in references ==> references[None].cache == old(references[None].cache)
    {
      rebuildCompleted := {};
      ReleaseBuckets();
    }

    /** The loop of `Release` over the scene buckets. */
    method ReleaseBuckets()
      requires Valid()
      modifies this`roots, buckets`data, buckets`cache
      ensures Valid()
      ensures Roots() == Released(old(Roots()), {})
      ensures forall s :: s in references && s.Some? ==> references[s].cache == map[]
      ensures None in references ==> references[None].cache == old(references[None].cache)
    {
      var pending := references.Keys - {None};
      ghost var r0 := Roots();
      ghost var global := if None in references then references[None].cache else map[];
      while pending != {}
        invariant Releasing(r0, global, pending)
        decreases pending
      {
        var s :| s in pending;
        ReleaseNext(r0, global, pending, s);
        pending := pending - {s};
      }
    }

    /**
     * The loop state of `ReleaseBuckets`: the scene buckets outside `pending` are
     * empty, those in it and the global bucket are as they were.
     */
    ghost predicate Releasing(r0: Roots, global: map<string, Value>, pending: set<Option<NodeId>>)
      reads this`references, this`buckets, this`tries, this`roots, tries, buckets`data, buckets`cache
    {
      Valid() && pending <= references.Keys && None !in pending
      && Roots() == Released(r0, pending)
      && (forall s :: s in references && s.Some? && s !in pending ==> references[s].cache == map[])
      && (None in references ==> references[None].cache == global)
    }

    /** One step of `ReleaseBuckets`: release the bucket of `s`. */
    method ReleaseNext(ghost r0: Roots, ghost global: map<string, Value>, pending: set<Option<NodeId>>,
                       s: Option<NodeId>)
      requires Releasing(r0, global, pending) && s in pending
      modifies this`roots, buckets`data, buckets`cache
      ensures Releasing(r0, global, pending - {s})
    {
      ReleaseStep(r0, pending, s);
      ReleaseAt(s, references[s]);
      forall s' | s' in references && s'.Some? && s' !in pending - {s} ensures references[s'].cache == map[] {
        if s' != s {
          assert references[s'].cache == old(references[s'].cache);
        }
      }
      if None in references {
        assert references[None].cache == old(references[None].cache);
      }
    }

    /** `reference.Value.Release()` on the bucket of scope `s`. */
    method ReleaseAt(s: Option<NodeId>, bucket: DataBindingReference)
      requires Valid() && s in references && references[s] == bucket
      modifies this`roots, bucket`data, bucket`cache
      ensures Valid()
      ensures roots == old(roots)[s := map[]]
      ensures bucket.cache == map[]
      ensures forall s' :: s' in references && s' != s ==> references[s'].cache == old(references[s'].cache)
    {
      bucket.Release();
      roots := roots[s := map[]];
    }

    /**
     * `Notify(key, baseObject, strict)`: nothing when no bucket holds the key's
     * root; otherwise clear that bucket's cache under `key` and mark (queue for
     * rebuild) the live binders of the trie nodes the walk of `key` visits.
     */
    method Notify(t: Tree, key: string, scope: Option<NodeId>, strict: bool, live: set<BinderId>,
                  depthOf: BinderId -> int) returns (marked: set<BinderId>)
      requires t.Valid() && Valid()
      modifies buckets`cache, this`rebuildList, this`rebuildCompleted
      ensures Valid() && unchanged(tries)
      ensures forall s, q :: s in references ==> BindersOf(s, q) == old(BindersOf(s, q))
      ensures Located(t, key, scope).None? ==> marked == {}
      ensures Located(t, key, scope).Some? ==> Marks(Located(t, key, scope).value, key, strict, live, marked)
      ensures Located(t, key, scope).Some? ==>
        var c := references[Located(t, key, scope).value];
        c.cache == Cleared(old(c.cache), key, strict)
      ensures forall b: DataBindingReference :: old(allocated(b)) && (Located(t, key, scope).None? || b != references[Located(t, key, scope).value]) ==>
        b.cache == old(b.cache)
      ensures forall d, x :: Listed(rebuildList, d, x) <==> Listed(old(rebuildList), d, x) || (x in marked && d == depthOf(x))
      ensures rebuildCompleted == old(rebuildCompleted)
    {
      var loc := Find(t, key, scope);
      marked := {};
      if loc.Some? {
        marked := NotifyAt(loc.value, references[loc.value], key, strict, live, depthOf);
      }
      BindersKept();
    }

    /**
     * `reference.Notify(key, baseObject, strict)` on the bucket of scope `s`,
     * followed by the rebuild requests of the binders it marks.
     */
    method NotifyAt(s: Option<NodeId>, bucket: DataBindingReference, key: string, strict: bool, live: set<BinderId>,
                    depthOf: BinderId -> int) returns (marked: set<BinderId>)
      requires Valid() && s in references && references[s] == bucket
      modifies bucket`cache, this`rebuildList, this`rebuildCompleted
      ensures forall s' :: s' in references && s' != s ==> references[s'].cache == old(references[s'].cache)
      ensures bucket.cache == Cleared(old(bucket.cache), key, strict)
      ensures Marks(s, key, strict, live, marked)
      ensures forall d, x :: Listed(rebuildList, d, x) <==> Listed(old(rebuildList), d, x) || (x in marked && d == depthOf(x))
      ensures rebuildCompleted == old(rebuildCompleted)
    {
      marked := bucket.Notify(key, strict, live);
      assert NodesOf(s) == bucket.reference.nodes;
      assert forall q :: BindersOf(s, q) == bucket.reference.BindersAt(q);
      MarkDirty(marked, depthOf);
    }

    /**
     * The bucket `GetValue(keys, baseObject)` and `SetValue` read: the one found for
     * the resolved key list joined again, none for an empty key or key list.
     */
    ghost function Target(t: Tree, aliases: map<NodeId, string>, keys: string, scope: Option<NodeId>): (r: Option<Option<NodeId>>)
      requires t.Valid()
      reads this`roots
      ensures r.Some? ==> keys != "" && KeyList(t, aliases, keys, scope) != [] && r.value in Roots()
    {
      var kl := KeyList(t, aliases, keys, scope);
      if keys == "" || kl == [] then None else Located(t, Join(kl), scope)
    }

    /**
     * The read `GetValue(keys, baseObject)` makes in its target bucket: the
     * bucket's fetch of the key list, and the cache the bucket is left with.
     */
    ghost function Fetch(t: Tree, aliases: map<NodeId, string>, heap: Heap, keys: string, scope: Option<NodeId>)
      : (Outcome<Value>, map<string, Value>)
      requires t.Valid() && Valid() && Target(t, aliases, keys, scope).Some?
      reads this`references, this`buckets, this`tries, this`roots, tries, buckets`data, buckets`cache
    {
      var s := Target(t, aliases, keys, scope).value;
      Fetched(roots[s], heap, references[s].cache, KeyList(t, aliases, keys, scope))
    }

    /**
     * `GetValue(keys, baseObject)`: null for an empty key, an empty key list or no
     * bucket; otherwise the bucket's walk of the key list, which is the value of
     * the path over the bucket's roots whenever its cache was consistent.
     */
    method GetValue(t: Tree, aliases: map<NodeId, string>, heap: Heap, keys: string, scope: Option<NodeId>)
      returns (r: Outcome<Value>)
      requires t.Valid() && Valid()
      modifies buckets`cache
      ensures Valid()
      ensures Target(t, aliases, keys, scope).None? ==> r == Ok(Null)
      ensures Target(t, aliases, keys, scope).Some? ==>
        (r, references[Target(t, aliases, keys, scope).value].cache) == old(Fetch(t, aliases, heap, keys, scope))
      ensures forall b: DataBindingReference ::
        old(allocated(b)) && (Target(t, aliases, keys, scope).None? || b != references[Target(t, aliases, keys, scope).value])
        ==> b.cache == old(b.cache)
      ensures Target(t, aliases, keys, scope).Some? ==>
        var s := Target(t, aliases, keys, scope).value;
        old(Consistent(Roots()[s], heap, references[s].cache)) ==>
          r == Resolve(Roots()[s], heap, KeyList(t, aliases, keys, scope))
          && Consistent(Roots()[s], heap, references[s].cache)
    {
      if keys == "" {
        return Ok(Null);
      }
      var keyList := KeyList(t, aliases, keys, scope);
      if keyList == [] {
        return Ok(Null);
      }
      var loc := Find(t, Join(keyList), scope);
      if loc.None? {
        return Ok(Null);
      }
      r := references[loc.value].GetValue(heap, keyList);
    }

    /**
     * `GetValue<T>(keys, baseObject)` for a value type `T`: convert the value, or
     * the key text itself when the value is null; a failed conversion gives
     * `default(T)`.
     */
    method GetValueAs(t: Tree, aliases: map<NodeId, string>, heap: Heap, keys: string, scope: Option<NodeId>, k: Kind)
      returns (r: Outcome<Value>)
      requires t.Valid() && Valid() && IsValueType(k)
      modifies buckets`cache
      ensures Valid()
      ensures r.Ok? ==> KindOf(heap, r.value) == k
      ensures Target(t, aliases, keys, scope).None? ==> r == ConvertOrDefault(heap, Str(keys), k)
      ensures Target(t, aliases, keys, scope).Some? ==>
        references[Target(t, aliases, keys, scope).value].cache == old(Fetch(t, aliases, heap, keys, scope)).1
        && match old(Fetch(t, aliases, heap, keys, scope)).0
           case Fault => r == Fault
           case Ok(v) => r == ConvertOrDefault(heap, if v == Null then Str(keys) else v, k)
      ensures forall b: DataBindingReference ::
        old(allocated(b)) && (Target(t, aliases, keys, scope).None? || b != references[Target(t, aliases, keys, scope).value])
        ==> b.cache == old(b.cache)
      ensures Target(t, aliases, keys, scope).Some? ==>
        var s := Target(t, aliases, keys, scope).value;
        old(Consistent(Roots()[s], heap, references[s].cache)) ==>
          match Resolve(Roots()[s], heap, KeyList(t, aliases, keys, scope))
          case Fault => r == Fault
          case Ok(v) => r == ConvertOrDefault(heap, if v == Null then Str(keys) else v, k)
    {
      var value := GetValue(t, aliases, heap, keys, scope);
      if value.Fault? {
        return Fault;
      }
      if value.value == Null {
        return ConvertOrDefault(heap, Str(keys), k);
      }
      r := ConvertOrDefault(heap, value.value, k);
    }

    /** `GetValue<T>(keys, baseObject)` for a class type `T`: the value `as T`. */
    method GetValueAsClass(t: Tree, aliases: map<NodeId, string>, heap: Heap, keys: string, scope: Option<NodeId>,
                           k: Kind) returns (r: Outcome<Value>)
      requires t.Valid() && Valid() && !IsValueType(k)
      modifies buckets`cache
      ensures Valid()
      ensures r.Ok? ==> r.value == Null || KindOf(heap, r.value) == k
      ensures Target(t, aliases, keys, scope).None? ==> r == Ok(Null)
      ensures Target(t, aliases, keys, scope).Some? ==>
        references[Target(t, aliases, keys, scope).value].cache == old(Fetch(t, aliases, heap, keys, scope)).1
        && match old(Fetch(t, aliases, heap, keys, scope)).0
           case Fault => r == Fault
           case Ok(v) => r == Ok(CastAs(heap, v, k))
      ensures forall b: DataBindingReference ::
        old(allocated(b)) && (Target(t, aliases, keys, scope).None? || b != references[Target(t, aliases, keys, scope).value])
        ==> b.cache == old(b.cache)
      ensures Target(t, aliases, keys, scope).Some? ==>
        var s := Target(t, aliases, keys, scope).value;
        old(Consistent(Roots()[s], heap, references[s].cache)) ==>
          match Resolve(Roots()[s], heap, KeyList(t, aliases, keys, scope))
          case Fault => r == Fault
          case Ok(v) => r == Ok(CastAs(heap, v, k))
    {
      var value := GetValue(t, aliases, heap, keys, scope);
      if value.Fault? {
        return Fault;
      }
      r := Ok(CastAs(heap, value.value, k));
    }

    /**
     * The lookup and store of `SetValue`, before its notification: nothing
     * changes but the heap it returns.  A path the store can reach reads back
     * as `value` afterwards.
     */
    method Write(t: Tree, aliases: map<NodeId, string>, heap: Heap, keys: string, value: Value, scope: Option<NodeId>)
      returns (r: Outcome<(Heap, bool)>)
      requires t.Valid() && Valid()
      ensures Target(t, aliases, keys, scope).None? ==> r == Ok((heap, false))
      ensures Target(t, aliases, keys, scope).Some? ==>
        r == StoredIn(Roots()[Target(t, aliases, keys, scope).value], heap, KeyList(t, aliases, keys, scope), value)
    {
      if keys == "" {
        return Ok((heap, false));
      }
      var keyList := KeyList(t, aliases, keys, scope);
      if keyList == [] {
        return Ok((heap, false));
      }
      var loc := Find(t, Join(keyList), scope);
      assert loc == Target(t, aliases, keys, scope);
      if loc.None? {
        return Ok((heap, false));
      }
      r := WriteAt(loc.value, references[loc.value], heap, keyList, value);
    }

    /** `reference.SetValue(keyList, value)` on the bucket of scope `s`, reported as `SetValue` reports it. */
    method WriteAt(s: Option<NodeId>, bucket: DataBindingReference, heap: Heap, keyList: seq<string>, value: Value)
      returns (r: Outcome<(Heap, bool)>)
      requires Valid() && s in references && references[s] == bucket && |keyList| >= 1
      ensures r == StoredIn(Roots()[s], heap, keyList, value)
    {
      var stored := bucket.SetValue(heap, keyList, value);
      if stored.Fault? {
        return Fault;
      }
      r := Ok((stored.value.0, stored.value.1 != Null));
    }

    /**
     * `SetValue(keys, value, baseObject)`: store `value` at the resolved path; on
     * success notify, non-strictly, the key text as the caller wrote it, and
     * report true.  With a `*` alias in `keys` that text is not the path written
     * (see `AliasedSetValueMissesItsPath`).
     */
    method SetValue(t: Tree, aliases: map<NodeId, string>, heap: Heap, keys: string, value: Value,
                    scope: Option<NodeId>, live: set<BinderId>, depthOf: BinderId -> int)
      returns (r: Outcome<(Heap, bool)>, marked: set<BinderId>)
      requires t.Valid() && Valid()
      modifies buckets`cache, this`rebuildList, this`rebuildCompleted
      ensures Valid() && rebuildCompleted == old(rebuildCompleted)
      ensures Target(t, aliases, keys, scope).None? ==> r == Ok((heap, false))
      ensures Target(t, aliases, keys, scope).Some? ==>
        r == StoredIn(Roots()[Target(t, aliases, keys, scope).value], heap, KeyList(t, aliases, keys, scope), value)
      ensures !(r.Ok? && r.value.1) ==> marked == {} && rebuildList == old(rebuildList)
      ensures r.Ok? && r.value.1 ==>
        (Located(t, keys, scope).None? ==> marked == {})
        && (Located(t, keys, scope).Some? ==>
              Marks(Located(t, keys, scope).value, keys, false, live, marked)
              && forall k :: k in references[Located(t, keys, scope).value].cache ==> !Evicted(k, keys, false))
      ensures forall d, x :: Listed(rebuildList, d, x) <==> Listed(old(rebuildList), d, x) || (x in marked && d == depthOf(x))
    {
      r := Write(t, aliases, heap, keys, value, scope);
      marked := {};
      if r.Ok? && r.value.1 {
        marked := Notify(t, keys, scope, false, live, depthOf);
      }
    }

    /**
     * `SetValue` notifying the resolved path it wrote instead of the key text:
     * the bucket notified is the one written, so the live binders of that path
     * are marked and no cache entry under it survives.
     */
    method SetValueNotifyingPath(t: Tree, aliases: map<NodeId, string>, heap: Heap, keys: string, value: Value,
                                 scope: Option<NodeId>, live: set<BinderId>, depthOf: BinderId -> int)
      returns (r: Outcome<(Heap, bool)>, marked: set<BinderId>)
      requires t.Valid() && Valid()
      modifies buckets`cache, this`rebuildList, this`rebuildCompleted
      ensures Valid() && rebuildCompleted == old(rebuildCompleted)
      ensures Target(t, aliases, keys, scope).None? ==> r == Ok((heap, false))
      ensures Target(t, aliases, keys, scope).Some? ==>
        r == StoredIn(Roots()[Target(t, aliases, keys, scope).value], heap, KeyList(t, aliases, keys, scope), value)
      ensures !(r.Ok? && r.value.1) ==> marked == {} && rebuildList == old(rebuildList)
      ensures r.Ok? && r.value.1 ==>
        var s := Target(t, aliases, keys, scope).value;
        var path := Join(KeyList(t, aliases, keys, scope));
        Target(t, aliases, keys, scope).Some?
        && Marks(s, path, false, live, marked)
        && forall k :: k in references[s].cache ==> !Evicted(k, path, false)
      ensures forall d, x :: Listed(rebuildList, d, x) <==> Listed(old(rebuildList), d, x) || (x in marked && d == depthOf(x))
    {
      r := Write(t, aliases, heap, keys, value, scope);
      marked := {};
      if r.Ok? && r.value.1 {
        var path := Join(KeyList(t, aliases, keys, scope));
        marked := Notify(t, path, scope, false, live, depthOf);
      }
    }

    /** `LateRebuild(binder, force)`: queue the binder at its depth; `force` lets it run again. */
    method LateRebuild(b: BinderId, depth: int, force: bool)
      modifies this`rebuildList, this`rebuildCompleted
      ensures forall d, x :: Listed(rebuildList, d, x) <==> Listed(old(rebuildList), d, x) || (d == depth && x == b)
      ensures rebuildCompleted == if force then old(rebuildCompleted) - {b} else old(rebuildCompleted)
      ensures rebuildList != map[]
    {
      if depth !in rebuildList {
        rebuildList := rebuildList[depth := {}];
      }
      rebuildList := rebuildList[depth := rebuildList[depth] + {b}];
      if force && b in rebuildCompleted {
        rebuildCompleted := rebuildCompleted - {b};
      }
      assert depth in rebuildList;
    }

    /** The effect of one rebuild: every binder it dirties is queued, not forced, at its own depth. */
    method MarkDirty(s: set<BinderId>, depthOf: BinderId -> int)
      modifies this`rebuildList, this`rebuildCompleted
      ensures forall d, x :: Listed(rebuildList, d, x) <==> Listed(old(rebuildList), d, x) || (x in s && d == depthOf(x))
      ensures rebuildCompleted == old(rebuildCompleted)
      ensures s == {} ==> rebuildList == old(rebuildList)
    {
      var todo := s;
      while todo != {}
        invariant todo <= s
        invariant forall d, x :: Listed(rebuildList, d, x) <==> Listed(old(rebuildList), d, x) || (x in s - todo && d == depthOf(x))
        invariant rebuildCompleted == old(rebuildCompleted)
        invariant todo == s ==> rebuildList == old(rebuildList)
      {
        var x :| x in todo;
        LateRebuild(x, depthOf(x), false);
        todo := todo - {x};
      }
    }

    /** One depth bucket of one wave: run every eligible binder not yet completed. */
    method RunDepth(todo: set<BinderId>, d: int, wave: nat, force: bool, live: set<BinderId>, active: set<BinderId>,
                    depthOf: BinderId -> int, dirties: BinderId -> set<BinderId>) returns (runs: seq<Run>)
      modifies this`rebuildList, this`rebuildCompleted
      ensures rebuildCompleted == old(rebuildCompleted) + RanSet(runs)
      ensures forall i :: 0 <= i < |runs| ==>
        runs[i].wave == wave && runs[i].depth == d && runs[i].binder in todo
        && runs[i].binder !in old(rebuildCompleted) && Eligible(runs[i].binder, d, force, live, active)
      ensures DistinctBinders(runs)
      ensures forall b :: b in todo && Eligible(b, d, force, live, active) ==> b in old(rebuildCompleted) + RanSet(runs)
      ensures forall e, x :: Listed(rebuildList, e, x) <==>
        Listed(old(rebuildList), e, x) || (e == depthOf(x) && DirtiedBy(runs, dirties, x))
      ensures runs == [] ==> rebuildList == old(rebuildList)
    {
      runs := [];
      var rest := todo;
      while rest != {}
        invariant rest <= todo
        invariant rebuildCompleted == old(rebuildCompleted) + RanSet(runs)
        invariant forall i :: 0 <= i < |runs| ==>
          runs[i].wave == wave && runs[i].depth == d && runs[i].binder in todo - rest
          && runs[i].binder !in old(rebuildCompleted) && Eligible(runs[i].binder, d, force, live, active)
        invariant DistinctBinders(runs)
        invariant forall b :: b in todo - rest && Eligible(b, d, force, live, active) ==> b in old(rebuildCompleted) + RanSet(runs)
        invariant forall e, x :: Listed(rebuildList, e, x) <==>
          Listed(old(rebuildList), e, x) || (e == depthOf(x) && DirtiedBy(runs, dirties, x))
        invariant runs == [] ==> rebuildList == old(rebuildList)
      {
        var b :| b in rest;
        rest := rest - {b};
        if b in live && b !in rebuildCompleted && (b in active || (force && d == 0)) {
          RanSetAppend(runs, [Run(wave, d, b)]);
          RanSetSingle(Run(wave, d, b));
          DirtiedByAppend(runs, [Run(wave, d, b)], dirties);
          assert forall x :: DirtiedBy([Run(wave, d, b)], dirties, x) <==> x in dirties(b) by {
            assert [Run(wave, d, b)][0].binder == b;
          }
          rebuildCompleted := rebuildCompleted + {b};
          runs := runs + [Run(wave, d, b)];
          MarkDirty(dirties(b), depthOf);
        }
      }
    }

    /** One wave: the depth buckets of `current` in ascending order. */
    method RunWave(current: map<int, set<BinderId>>, wave: nat, force: bool, live: set<BinderId>, active: set<BinderId>,
                   depthOf: BinderId -> int, dirties: BinderId -> set<BinderId>) returns (runs: seq<Run>)
      modifies this`rebuildList, this`rebuildCompleted
      ensures rebuildCompleted == old(rebuildCompleted) + RanSet(runs)
      ensures forall i :: 0 <= i < |runs| ==>
        runs[i].wave == wave && Listed(current, runs[i].depth, runs[i].binder)
        && runs[i].binder !in old(rebuildCompleted) && Eligible(runs[i].binder, runs[i].depth, force, live, active)
      ensures forall i, j :: 0 <= i < j < |runs| ==> runs[i].depth <= runs[j].depth
      ensures DistinctBinders(runs)
      ensures forall d, b :: Listed(current, d, b) && Eligible(b, d, force, live, active) ==>
        b in old(rebuildCompleted) + RanSet(runs)
      ensures forall e, x :: Listed(rebuildList, e, x) <==>
        Listed(old(rebuildList), e, x) || (e == depthOf(x) && DirtiedBy(runs, dirties, x))
      ensures runs == [] ==> rebuildList == old(rebuildList)
    {
      runs := [];
      var depths := current.Keys;
      while depths != {}
        invariant WaveSoFar(runs, depths, current, wave, old(rebuildCompleted), force, live, active)
        invariant rebuildCompleted == old(rebuildCompleted) + RanSet(runs)
        invariant forall e, x :: Listed(rebuildList, e, x) <==>
          Listed(old(rebuildList), e, x) || (e == depthOf(x) && DirtiedBy(runs, dirties, x))
        invariant runs == [] ==> rebuildList == old(rebuildList)
      {
        MinExists(depths);
        var d :| d in depths && forall e :: e in depths ==> d <= e;
        var step := RunDepth(current[d], d, wave, force, live, active, depthOf, dirties);
        DepthStep(runs, step, depths, d, current, wave, old(rebuildCompleted), force, live, active);
        RanSetAppend(runs, step);
        DirtiedByAppend(runs, step, dirties);
        runs := runs + step;
        depths := depths - {d};
      }
      assert forall i :: 0 <= i < |runs| ==> runs[i].depth !in depths;
    }
  
    /** One pass of `Execute`'s loop: take the queue, run it, and keep what the pass dirtied as the next queue. */
    method DrainWave(ghost ran: seq<Run>, wave: nat, ghost list0: map<int, set<BinderId>>,
                     ghost completed0: set<BinderId>, force: bool, live: set<BinderId>, active: set<BinderId>,
                     depthOf: BinderId -> int, dirties: BinderId -> set<BinderId>, ghost universe: set<BinderId>)
      returns (runs: seq<Run>)
      requires rebuildList != map[]
      requires Draining(rebuildList, rebuildCompleted, ran, wave, list0, completed0,
                        force, live, active, depthOf, dirties, universe)
      requires forall b :: b in universe ==> dirties(b) <= universe
      modifies this`rebuildList, this`rebuildCompleted
      ensures Draining(rebuildList, rebuildCompleted, ran + runs, wave + 1, list0, completed0,
                       force, live, active, depthOf, dirties, universe)
      ensures runs == [] ==> rebuildList == map[] && rebuildCompleted == old(rebuildCompleted)
      ensures runs != [] ==> universe - rebuildCompleted < universe - old(rebuildCompleted)
    {
      var current := rebuildList;
      rebuildList := map[];
      runs := RunWave(current, wave, force, live, active, depthOf, dirties);
      WaveStep(current, rebuildList, old(rebuildCompleted), ran, runs, wave, list0, completed0,
               force, live, active, depthOf, dirties, universe);
      if runs != [] {
        Shrinks(universe, old(rebuildCompleted), rebuildCompleted, runs[0].binder);
      }
    }

    /**
     * `Execute(force)`: drain the rebuild queue in waves.  Each wave takes the
     * current queue (rebuilds queue into a fresh one for the next wave), runs its
     * depth buckets in ascending order and every binder at most once per call,
     * skipping destroyed binders and, unless `force` is set and the depth is 0,
     * inactive ones.  `dirties(b)` are the binders a rebuild of `b` marks dirty;
     * `universe` holds every binder there is.  Returns the rebuilds in order.
     */
    method Execute(force: bool, live: set<BinderId>, active: set<BinderId>, depthOf: BinderId -> int,
                   dirties: BinderId -> set<BinderId>, universe: set<BinderId>) returns (ran: seq<Run>)
      requires forall d :: d in rebuildList ==> rebuildList[d] <= universe
      requires forall b :: b in universe ==> dirties(b) <= universe
      modifies this`rebuildList, this`rebuildCompleted
      ensures rebuildList == map[] && rebuildCompleted == {}
      ensures Ordered(ran) && DistinctBinders(ran)
      ensures forall i :: 0 <= i < |ran| ==>
        ran[i].binder !in old(rebuildCompleted) && Eligible(ran[i].binder, ran[i].depth, force, live, active)
      ensures forall i :: 0 <= i < |ran| && ran[i].wave == 0 ==> Listed(old(rebuildList), ran[i].depth, ran[i].binder)
      ensures forall i :: 0 <= i < |ran| && ran[i].wave > 0 ==>
        ran[i].depth == depthOf(ran[i].binder) && DirtiedIn(ran, dirties, ran[i].wave - 1, ran[i].binder)
      ensures forall d, b :: Listed(old(rebuildList), d, b) && Eligible(b, d, force, live, active) ==>
        b in old(rebuildCompleted) || b in RanSet(ran)
      ensures forall i, b :: 0 <= i < |ran| && b in dirties(ran[i].binder) && Eligible(b, depthOf(b), force, live, active) ==>
        b in old(rebuildCompleted) || b in RanSet(ran)
    {
      ran := [];
      var wave: nat := 0;
      ghost var list0 := rebuildList;
      ghost var completed0 := rebuildCompleted;
      while rebuildList != map[]
        invariant Draining(rebuildList, rebuildCompleted, ran, wave, list0, completed0,
                           force, live, active, depthOf, dirties, universe)
        decreases universe - rebuildCompleted, if rebuildList == map[] then 0 else 1
      {
        var runs := DrainWave(ran, wave, list0, completed0, force, live, active, depthOf, dirties, universe);
        ran := ran + runs;
        wave := wave + 1;
      }
      DrainedAll(rebuildCompleted, ran, wave, list0, completed0, force, live, active, depthOf, dirties, universe);
      rebuildCompleted := {};
    }
}
}
