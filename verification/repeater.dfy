/**
 * `Repeater`: a binder that shows one `RepeatItem` per selected element of
 * the list at its target path.  The selection (`Indexes`) keeps the elements
 * a filter condition accepts, orders them stably by a sort key (descending
 * when the key starts with `-`), skips some and limits the rest.  A rebuild
 * then hands the selected data indexes to the existing children in order,
 * releases the children left over and, with a prefab, makes new children for
 * the indexes left over.
 */
module Repeaters {
  import opened Wrappers
  import opened Text
  import opened Scene
  import opened References
  import opened Values
  import Bindings
  import opened DataBinders
  import opened AliasGroups
  import opened RepeatItems
  import C = Conditions

  // ---------------------------------------------------------------------------
  // The index pipeline

  /** `pattern.Replace("*", target + "." + i)`: the key or condition text for element `i`. */
  function ItemKey(pattern: string, target: string, i: int): string {
    ReplaceChar(pattern, AliasSymbol, target + [Delimiter] + IntToString(i))
  }

  /** Whether the filter accepts element `i` (`ConditionBinding.Parse` without a binder). */
  function Keeps(filter: string, target: string, i: int, env: C.Env): Outcome<bool> {
    match C.Evaluate(ItemKey(filter, target, i), false, env)
    case Fault => Fault
    case Ok(p) => Ok(p.0)
  }

  /** `0, 1, ..., n - 1`. */
  function Range(n: nat): (r: seq<int>)
    ensures |r| == n && forall i :: 0 <= i < n ==> r[i] == i
  {
    if n == 0 then [] else Range(n - 1) + [n - 1]
  }

  /**
   * The indexes of the first `n` elements the filter keeps, in order; an
   * empty filter keeps every element, and the first evaluation that raises
   * raises for the whole selection.
   */
  function Candidates(n: nat, filter: string, target: string, env: C.Env): Outcome<seq<int>>
    decreases n
  {
    if filter == "" then Ok(Range(n))
    else if n == 0 then Ok([])
    else match Candidates(n - 1, filter, target, env)
      case Fault => Fault
      case Ok(l) =>
        match Keeps(filter, target, n - 1, env)
        case Fault => Fault
        case Ok(b) => Ok(if b then l + [n - 1] else l)
  }

  predicate Increasing(s: seq<int>) {
    forall i, j :: 0 <= i < j < |s| ==> s[i] < s[j]
  }

  predicate NoDuplicates(s: seq<int>) {
    forall i, j :: 0 <= i < j < |s| ==> s[i] != s[j]
  }

  /** The filter selection raises exactly when the evaluation for some element raises. */
  lemma {:induction false} CandidatesRaiseExactly(n: nat, filter: string, target: string, env: C.Env)
    ensures Candidates(n, filter, target, env).Fault? <==>
      filter != "" && exists i :: 0 <= i < n && Keeps(filter, target, i, env).Fault?
    decreases n
  {
    if filter != "" && n > 0 {
      CandidatesRaiseExactly(n - 1, filter, target, env);
    }
  }

  /**
   * A filter selection is ascending, within range, and holds exactly the
   * elements the filter accepts.
   */
  lemma {:induction false} CandidatesAreTheKeptOnes(n: nat, filter: string, target: string, env: C.Env)
    requires Candidates(n, filter, target, env).Ok?
    ensures var l := Candidates(n, filter, target, env).value;
      Increasing(l) && (forall x :: x in l ==> 0 <= x < n)
      && forall i :: 0 <= i < n ==> (i in l <==> filter == "" || Keeps(filter, target, i, env) == Ok(true))
    decreases n
  {
    var l' := Candidates(n, filter, target, env).value;
    if filter == "" {
      assert forall x :: x in l' ==> 0 <= x < n;
      forall i | 0 <= i < n ensures i in l' {
        assert l'[i] == i;
      }
    } else if n > 0 {
      CandidatesAreTheKeptOnes(n - 1, filter, target, env);
      var l := Candidates(n - 1, filter, target, env).value;
      var keep := Keeps(filter, target, n - 1, env).value;
      assert l' == if keep then l + [n - 1] else l;
      assert n - 1 !in l;
      if keep {
        assert forall x :: x in l' ==> x in l || x == n - 1;
        assert Increasing(l') by {
          forall i, j | 0 <= i < j < |l'| ensures l'[i] < l'[j] {
            if j == |l| {
              assert l'[i] == l[i] && l[i] in l;
            }
          }
        }
      }
      forall i | 0 <= i < n ensures i in l' <==> Keeps(filter, target, i, env) == Ok(true) {
        if i < n - 1 {
          assert i in l' <==> i in l;
        }
      }
    }
  }

  /** Ordered by rank, ties by index: the order a stable sort gives an ascending list. */
  predicate Before(rank: int -> int, a: int, b: int) {
    rank(a) < rank(b) || (rank(a) == rank(b) && a < b)
  }

  predicate SortedBy(s: seq<int>, rank: int -> int) {
    forall i, j :: 0 <= i < j < |s| ==> Before(rank, s[i], s[j])
  }

  /** `x` put in front of the first element it comes before. */
  function Insert(x: int, s: seq<int>, rank: int -> int): (r: seq<int>)
    ensures multiset(r) == multiset(s) + multiset{x}
  {
    if s == [] then [x]
    else if Before(rank, x, s[0]) then [x] + s
    else
      assert s == [s[0]] + s[1..];
      [s[0]] + Insert(x, s[1..], rank)
  }

  /** `OrderBy(rank)` as an insertion sort: a permutation of its input. */
  function SortBy(s: seq<int>, rank: int -> int): (r: seq<int>)
    ensures multiset(r) == multiset(s)
  {
    if s == [] then []
    else
      assert s == [s[0]] + s[1..];
      Insert(s[0], SortBy(s[1..], rank), rank)
  }

  lemma SortedCons(a: int, rest: seq<int>, rank: int -> int)
    requires SortedBy(rest, rank) && forall y :: y in rest ==> Before(rank, a, y)
    ensures SortedBy([a] + rest, rank)
  {
    forall i, j | 0 <= i < j < |[a] + rest| ensures Before(rank, ([a] + rest)[i], ([a] + rest)[j]) {
      if i == 0 {
        assert ([a] + rest)[j] == rest[j - 1];
      } else {
        assert ([a] + rest)[i] == rest[i - 1] && ([a] + rest)[j] == rest[j - 1];
      }
    }
  }

  lemma {:induction false} InsertSorted(x: int, s: seq<int>, rank: int -> int)
    requires SortedBy(s, rank) && x !in s
    ensures SortedBy(Insert(x, s, rank), rank)
  {
    if s == [] {
    } else if Before(rank, x, s[0]) {
      forall y | y in s ensures Before(rank, x, y) {
        var j :| 0 <= j < |s| && s[j] == y;
        if j > 0 {
          assert Before(rank, s[0], s[j]);
        }
      }
      SortedCons(x, s, rank);
    } else {
      var tail := s[1..];
      assert SortedBy(tail, rank) by {
        forall i, j | 0 <= i < j < |tail| ensures Before(rank, tail[i], tail[j]) {
          assert tail[i] == s[i + 1] && tail[j] == s[j + 1];
        }
      }
      assert x !in tail;
      InsertSorted(x, tail, rank);
      var ins := Insert(x, tail, rank);
      forall y | y in ins ensures Before(rank, s[0], y) {
        assert y in multiset(ins);
        if y != x {
          assert y in multiset(tail);
          var j :| 0 <= j < |tail| && tail[j] == y;
          assert s[j + 1] == y;
        }
      }
      SortedCons(s[0], ins, rank);
    }
  }

  /** Sorting a list without duplicates orders it by rank, ties by index. */
  lemma {:induction false} SortBySorts(s: seq<int>, rank: int -> int)
    requires NoDuplicates(s)
    ensures SortedBy(SortBy(s, rank), rank)
  {
    if s != [] {
      var tail := s[1..];
      assert NoDuplicates(tail) by {
        forall i, j | 0 <= i < j < |tail| ensures tail[i] != tail[j] {
          assert tail[i] == s[i + 1] && tail[j] == s[j + 1];
        }
      }
      SortBySorts(tail, rank);
      assert s[0] !in tail by {
        forall j | 0 <= j < |tail| ensures tail[j] != s[0] {
          assert tail[j] == s[j + 1];
        }
      }
      assert s[0] !in multiset(SortBy(tail, rank));
      InsertSorted(s[0], SortBy(tail, rank), rank);
    }
  }

  /** `Reverse()` */
  function Reversed(s: seq<int>): (r: seq<int>)
    ensures |r| == |s| && forall i :: 0 <= i < |s| ==> r[i] == s[|s| - 1 - i]
  {
    if s == [] then [] else Reversed(s[1..]) + [s[0]]
  }

  /** `sort.TrimStart('-')`: the text after its leading dashes. */
  function TrimDashes(s: string): (r: string)
    ensures |r| <= |s| && (r != [] ==> r[0] != '-')
    ensures r == s[|s| - |r|..] && forall i :: 0 <= i < |s| - |r| ==> s[i] == '-'
  {
    if s != [] && s[0] == '-' then
      var r := TrimDashes(s[1..]);
      assert forall i :: 1 <= i < |s| ==> s[i] == s[1..][i - 1];
      assert s[1..][|s| - 1 - |r|..] == s[|s| - |r|..];
      r
    else s
  }

  /** The rank of element `i`: the place of the value at its sort key in the comparer's order. */
  function SortRank(order: string -> int, sort: string, target: string): int -> int {
    i => order(ItemKey(TrimDashes(sort), target, i))
  }

  /** The selection after sorting, and reversing for a key that starts with `-`. */
  function Ordered(kept: seq<int>, target: string, sort: string, order: string -> int): seq<int> {
    if sort == "" then kept
    else
      var sorted := SortBy(kept, SortRank(order, sort, target));
      if sort[0] == '-' then Reversed(sorted) else sorted
  }

  /** `Skip(skip)` when `skip > 0`, then `Take(limit)` when `limit >= 0`. */
  function Window(s: seq<int>, skip: int, limit: int): seq<int> {
    var skipped := if skip > 0 then s[if skip < |s| then skip else |s|..] else s;
    if limit >= 0 then skipped[..if limit < |skipped| then limit else |skipped|] else skipped
  }

  /** How many indexes a window of `skip` and `limit` leaves of `n`. */
  function WindowLength(n: nat, skip: int, limit: int): nat {
    var after := if skip > 0 then (if skip < n then n - skip else 0) else n;
    if limit >= 0 && limit < after then limit else after
  }

  /**
   * The `Indexes` getter over a target list of `elements` items (`None` when
   * the target value is null after `as IEnumerable`, which raises): filter,
   * order, then window.
   */
  function Listing(elements: Option<nat>, target: string, filter: string, sort: string, skip: int, limit: int,
                   env: C.Env, order: string -> int): Outcome<seq<int>>
  {
    if elements.None? then Fault
    else match Candidates(elements.value, filter, target, env)
      case Fault => Fault
      case Ok(kept) => Ok(Window(Ordered(kept, target, sort, order), skip, limit))
  }

  /** What the `Count` getter computes: the number of elements the filter keeps, no window applied. */
  function Counted(elements: Option<nat>, filter: string, target: string, env: C.Env): Outcome<int> {
    if elements.None? then Ok(0)
    else match Candidates(elements.value, filter, target, env)
      case Fault => Fault
      case Ok(kept) => Ok(|kept|)
  }

  /** A window is one contiguous run of its input, of the advertised length. */
  lemma WindowIsSlice(s: seq<int>, skip: int, limit: int)
    ensures |Window(s, skip, limit)| == WindowLength(|s|, skip, limit)
    ensures var a := if skip > 0 then (if skip < |s| then skip else |s|) else 0;
      Window(s, skip, limit) == s[a..a + WindowLength(|s|, skip, limit)]
  {
  }

  /** Ordered by rank, ties by index, from the last element to the first. */
  predicate SortedDown(s: seq<int>, rank: int -> int) {
    forall i, j :: 0 <= i < j < |s| ==> Before(rank, s[j], s[i])
  }

  lemma SliceKeepsOrder(s: seq<int>, a: nat, b: nat, rank: int -> int)
    requires a <= b <= |s|
    ensures NoDuplicates(s) ==> NoDuplicates(s[a..b])
    ensures Increasing(s) ==> Increasing(s[a..b])
    ensures SortedBy(s, rank) ==> SortedBy(s[a..b], rank)
    ensures SortedDown(s, rank) ==> SortedDown(s[a..b], rank)
    ensures multiset(s[a..b]) <= multiset(s)
  {
    assert forall i :: 0 <= i < b - a ==> s[a..b][i] == s[a + i];
    assert s == s[..a] + s[a..b] + s[b..];
  }

  lemma {:induction false} ReversedKeepsElements(s: seq<int>)
    ensures multiset(Reversed(s)) == multiset(s)
  {
    if s != [] {
      ReversedKeepsElements(s[1..]);
      assert s == [s[0]] + s[1..];
    }
  }

  /**
   * The window keeps what the ordering promised: no duplicates, only elements
   * of its input, and the same order.
   */
  lemma WindowKeepsOrder(o: seq<int>, skip: int, limit: int, rank: int -> int)
    ensures var w := Window(o, skip, limit);
      |w| == WindowLength(|o|, skip, limit) && multiset(w) <= multiset(o)
      && (NoDuplicates(o) ==> NoDuplicates(w)) && (Increasing(o) ==> Increasing(w))
      && (SortedBy(o, rank) ==> SortedBy(w, rank)) && (SortedDown(o, rank) ==> SortedDown(w, rank))
  {
    WindowIsSlice(o, skip, limit);
    var a := if skip > 0 then (if skip < |o| then skip else |o|) else 0;
    SliceKeepsOrder(o, a, a + WindowLength(|o|, skip, limit), rank);
  }

  /** Reversing a list sorted by rank gives it from the last element to the first. */
  lemma ReversedIsSortedDown(s: seq<int>, rank: int -> int)
    requires SortedBy(s, rank)
    ensures SortedDown(Reversed(s), rank)
  {
    var r := Reversed(s);
    forall i, j | 0 <= i < j < |r| ensures Before(rank, r[j], r[i]) {
      assert r[i] == s[|s| - 1 - i] && r[j] == s[|s| - 1 - j];
    }
  }

  /** A list without duplicates holds each value at most once. */
  lemma {:induction false} DistinctCountsOne(s: seq<int>)
    requires NoDuplicates(s)
    ensures forall x :: multiset(s)[x] <= 1
  {
    if s != [] {
      var tail := s[1..];
      assert s == [s[0]] + tail;
      assert NoDuplicates(tail) by {
        forall i, j | 0 <= i < j < |tail| ensures tail[i] != tail[j] {
          assert tail[i] == s[i + 1] && tail[j] == s[j + 1];
        }
      }
      DistinctCountsOne(tail);
      assert s[0] !in tail by {
        forall j | 0 <= j < |tail| ensures tail[j] != s[0] {
          assert tail[j] == s[j + 1];
        }
      }
    }
  }

  /** A rearrangement of a list without duplicates has none either. */
  lemma PermutationKeepsDistinct(a: seq<int>, b: seq<int>)
    requires multiset(a) == multiset(b) && NoDuplicates(a)
    ensures NoDuplicates(b)
  {
    DistinctCountsOne(a);
    forall i, j | 0 <= i < j < |b| ensures b[i] != b[j] {
      assert b == b[..j] + b[j..];
      assert b[i] in b[..j] && b[j] in b[j..];
      assert multiset(b)[b[j]] == multiset(b[..j])[b[j]] + multiset(b[j..])[b[j]];
    }
  }

  /**
   * Ordering a selection without duplicates keeps its elements: unchanged
   * without a sort key, by rank and index with one, and the reverse of that
   * for a key that starts with `-`.
   */
  lemma OrderedIsSorted(kept: seq<int>, target: string, sort: string, order: string -> int)
    requires NoDuplicates(kept)
    ensures var o := Ordered(kept, target, sort, order);
      var rank := SortRank(order, sort, target);
      multiset(o) == multiset(kept) && NoDuplicates(o)
      && (sort == "" ==> o == kept)
      && (sort != "" && sort[0] != '-' ==> SortedBy(o, rank))
      && (sort != "" && sort[0] == '-' ==> SortedDown(o, rank))
  {
    if sort != "" {
      var rank := SortRank(order, sort, target);
      var sorted := SortBy(kept, rank);
      SortBySorts(kept, rank);
      var o := sorted;
      if sort[0] == '-' {
        ReversedKeepsElements(sorted);
        ReversedIsSortedDown(sorted, rank);
        o := Reversed(sorted);
      }
      PermutationKeepsDistinct(kept, o);
    }
  }

  /**
   * Ordering and windowing a selection without duplicates leaves a selection
   * without duplicates, drawn from it, as long as the window allows, in the
   * order the sort key asks for.
   */
  lemma ArrangedIsValid(kept: seq<int>, target: string, sort: string, skip: int, limit: int, order: string -> int)
    requires NoDuplicates(kept)
    ensures var l := Window(Ordered(kept, target, sort, order), skip, limit);
      var rank := SortRank(order, sort, target);
      NoDuplicates(l) && (forall x :: x in l ==> x in kept)
      && |l| == WindowLength(|kept|, skip, limit)
      && (sort == "" && Increasing(kept) ==> Increasing(l))
      && (sort != "" && sort[0] != '-' ==> SortedBy(l, rank))
      && (sort != "" && sort[0] == '-' ==> SortedDown(l, rank))
  {
    var rank := SortRank(order, sort, target);
    OrderedIsSorted(kept, target, sort, order);
    var o := Ordered(kept, target, sort, order);
    WindowKeepsOrder(o, skip, limit, rank);
    var l := Window(o, skip, limit);
    assert |o| == |multiset(o)| == |kept|;
    forall x | x in l ensures x in kept {
      assert x in multiset(l);
    }
  }

  /**
   * The selection holds no index twice and only indexes the filter keeps, as
   * many as the window allows.  Without a sort key it stays ascending; with
   * one it is ordered by rank and index, from the last element for a `-` key.
   */
  lemma ListingIsValid(elements: Option<nat>, target: string, filter: string, sort: string, skip: int, limit: int,
                       env: C.Env, order: string -> int)
    requires Listing(elements, target, filter, sort, skip, limit, env, order).Ok?
    ensures var l := Listing(elements, target, filter, sort, skip, limit, env, order).value;
      var rank := SortRank(order, sort, target);
      NoDuplicates(l)
      && (forall x :: x in l ==> 0 <= x < elements.value && (filter == "" || Keeps(filter, target, x, env) == Ok(true)))
      && |l| == WindowLength(|Candidates(elements.value, filter, target, env).value|, skip, limit)
      && (sort == "" ==> Increasing(l))
      && (sort != "" && sort[0] != '-' ==> SortedBy(l, rank))
      && (sort != "" && sort[0] == '-' ==> SortedDown(l, rank))
  {
    var kept := Candidates(elements.value, filter, target, env).value;
    CandidatesAreTheKeptOnes(elements.value, filter, target, env);
    ArrangedIsValid(kept, target, sort, skip, limit, order);
  }

  /**
   * Without a filter, a sort key, a skip or a limit, the selection is every
   * index of the list in order.
   */
  lemma EveryIndexByDefault(n: nat, target: string, env: C.Env, order: string -> int)
    ensures Listing(Some(n), target, "", "", 0, -1, env, order) == Ok(Range(n))
  {
  }

  /**
   * `Count` ignores the window: it agrees with the length of the selection
   * whenever nothing is skipped or limited, and can only be larger otherwise.
   */
  lemma CountIgnoresWindow(n: nat, target: string, filter: string, sort: string, skip: int, limit: int,
                           env: C.Env, order: string -> int)
    requires Listing(Some(n), target, filter, sort, skip, limit, env, order).Ok?
    ensures Counted(Some(n), filter, target, env).Ok?
    ensures |Listing(Some(n), target, filter, sort, skip, limit, env, order).value|
      <= Counted(Some(n), filter, target, env).value
    ensures skip <= 0 && limit < 0 ==>
      |Listing(Some(n), target, filter, sort, skip, limit, env, order).value| == Counted(Some(n), filter, target, env).value
  {
    var kept := Candidates(n, filter, target, env).value;
    var o := Ordered(kept, target, sort, order);
    WindowIsSlice(o, skip, limit);
    if sort != "" {
      var sorted := SortBy(kept, SortRank(order, sort, target));
      assert |sorted| == |multiset(sorted)| == |kept|;
    }
  }

  // ---------------------------------------------------------------------------
  // Items

  /** The state `ReleaseItem` leaves an item in. */
  predicate Released(c: RepeatItem)
    reads c, c.group
  {
    c.group.alias == "" && c.dataIndex == -1 && c.index == -1 && c.group.value == Null && !c.active
  }

  /** Item `c` is active and shows element `d` of `target` at position `k`. */
  predicate Shows(c: RepeatItem, target: string, d: int, k: int)
    reads c, c.group
  {
    c.group.alias == target && c.dataIndex == d && c.index == k && c.group.value == Null && c.active
  }

  /** Child `c` at position `k` after a rebuild that selected `ix`: showing `ix[k]`, or released past the end. */
  predicate Settled(c: RepeatItem, target: string, ix: seq<int>, k: int)
    reads c, c.group
  {
    if 0 <= k < |ix| then Shows(c, target, ix[k], k) else Released(c)
  }

  /** Marking item `c` dirty queues its binder `x` at the level `d` it reports in `t`. */
  predicate Queues(c: RepeatItem, t: Tree, d: int, x: BinderId)
    requires t.Valid()
    reads c.group.binder
  {
    x == c.group.binder.id && d == c.group.binder.Level(t)
  }

  /** A new item, whose level is not cached yet, is queued at the depth of its node. */
  predicate QueuesNew(c: RepeatItem, t: Tree, d: int, x: BinderId)
    requires t.Valid()
  {
    x == c.group.binder.id && d == Depth(t, c.group.binder.node)
  }

  /** The entries `(level, binder)` the first `n` of `items` add to the rebuild queue when each is marked dirty in `t`. */
  ghost function Marks(items: seq<RepeatItem>, t: Tree, n: nat): (r: seq<(int, BinderId)>)
    requires t.Valid() && n <= |items|
    reads set c | c in items :: c.group.binder
    ensures |r| == n
    ensures forall k :: 0 <= k < n ==> r[k] == (items[k].group.binder.Level(t), items[k].group.binder.id)
  {
    if n == 0 then [] else Marks(items, t, n - 1) + [(items[n - 1].group.binder.Level(t), items[n - 1].group.binder.id)]
  }

  class Repeater {
    /** The `DataBinder` part of the repeater. */
    const binder: DataBinder
    /** Whether `_prefab` is set. */
    const hasPrefab: bool
    var target: string
    var filter: string
    var sort: string
    var skip: int
    var limit: int
    /** `_count`: `None` until first counted. */
    var count: Option<int>
    /** `_children`, in order. */
    var children: seq<RepeatItem>

    /** No two children share an item, an alias group or a binder. */
    ghost predicate Valid()
      reads this
    {
      forall i, j :: 0 <= i < j < |children| ==>
        children[i] != children[j] && children[i].group != children[j].group
        && children[i].group.binder != children[j].group.binder
    }

    /** A repeater with its serialized settings and the children `Awake` found under its content. */
    constructor (binder: DataBinder, hasPrefab: bool, target: string, filter: string, sort: string,
                 skip: int, limit: int, children: seq<RepeatItem>)
      requires forall i, j :: 0 <= i < j < |children| ==>
        children[i] != children[j] && children[i].group != children[j].group
        && children[i].group.binder != children[j].group.binder
      ensures Valid() && count.None? && this.children == children
      ensures this.binder == binder && this.hasPrefab == hasPrefab && this.target == target
      ensures this.filter == filter && this.sort == sort && this.skip == skip && this.limit == limit
    {
      this.binder := binder;
      this.hasPrefab := hasPrefab;
      this.target := target;
      this.filter := filter;
      this.sort := sort;
      this.skip := skip;
      this.limit := limit;
      count := None;
      this.children := children;
    }

    /** The `Target` setter: store the path and mark the repeater dirty. */
    method SetTarget(db: Bindings.DataBinding, t: Tree, v: string)
      requires t.Valid()
      modifies this`target, binder`hierarchyLevel, db`rebuildList, db`rebuildCompleted
      ensures target == v && binder.hierarchyLevel == old(binder.Level(t))
      ensures forall d, x: BinderId :: Bindings.Listed(db.rebuildList, d, x) <==>
        Bindings.Listed(old(db.rebuildList), d, x) || (d == binder.hierarchyLevel && x == binder.id)
      ensures db.rebuildCompleted == old(db.rebuildCompleted)
    {
      target := v;
      binder.SetDirty(db, t, false);
    }

    /** The `Filter` setter. */
    method SetFilter(db: Bindings.DataBinding, t: Tree, v: string)
      requires t.Valid()
      modifies this`filter, binder`hierarchyLevel, db`rebuildList, db`rebuildCompleted
      ensures filter == v && binder.hierarchyLevel == old(binder.Level(t))
      ensures forall d, x: BinderId :: Bindings.Listed(db.rebuildList, d, x) <==>
        Bindings.Listed(old(db.rebuildList), d, x) || (d == binder.hierarchyLevel && x == binder.id)
      ensures db.rebuildCompleted == old(db.rebuildCompleted)
    {
      filter := v;
      binder.SetDirty(db, t, false);
    }

    /** The `Sort` setter. */
    method SetSort(db: Bindings.DataBinding, t: Tree, v: string)
      requires t.Valid()
      modifies this`sort, binder`hierarchyLevel, db`rebuildList, db`rebuildCompleted
      ensures sort == v && binder.hierarchyLevel == old(binder.Level(t))
      ensures forall d, x: BinderId :: Bindings.Listed(db.rebuildList, d, x) <==>
        Bindings.Listed(old(db.rebuildList), d, x) || (d == binder.hierarchyLevel && x == binder.id)
      ensures db.rebuildCompleted == old(db.rebuildCompleted)
    {
      sort := v;
      binder.SetDirty(db, t, false);
    }

    /** The `Skip` setter. */
    method SetSkip(db: Bindings.DataBinding, t: Tree, v: int)
      requires t.Valid()
      modifies this`skip, binder`hierarchyLevel, db`rebuildList, db`rebuildCompleted
      ensures skip == v && binder.hierarchyLevel == old(binder.Level(t))
      ensures forall d, x: BinderId :: Bindings.Listed(db.rebuildList, d, x) <==>
        Bindings.Listed(old(db.rebuildList), d, x) || (d == binder.hierarchyLevel && x == binder.id)
      ensures db.rebuildCompleted == old(db.rebuildCompleted)
    {
      skip := v;
      binder.SetDirty(db, t, false);
    }

    /** The `Limit` setter. */
    method SetLimit(db: Bindings.DataBinding, t: Tree, v: int)
      requires t.Valid()
      modifies this`limit, binder`hierarchyLevel, db`rebuildList, db`rebuildCompleted
      ensures limit == v && binder.hierarchyLevel == old(binder.Level(t))
      ensures forall d, x: BinderId :: Bindings.Listed(db.rebuildList, d, x) <==>
        Bindings.Listed(old(db.rebuildList), d, x) || (d == binder.hierarchyLevel && x == binder.id)
      ensures db.rebuildCompleted == old(db.rebuildCompleted)
    {
      limit := v;
      binder.SetDirty(db, t, false);
    }

    /** The filter loop of the `Indexes` getter over `n` elements: the indexes the filter keeps, in order. */
    method Kept(conditions: C.ConditionBinding, n: nat, env: C.Env) returns (r: Outcome<seq<int>>)
      requires filter != "" && conditions.Valid()
      modifies conditions
      ensures conditions.Valid()
      ensures r == Candidates(n, filter, target, env)
    {
      var list: seq<int> := [];
      var i := 0;
      while i < n
        invariant 0 <= i <= n && conditions.Valid()
        invariant Candidates(i, filter, target, env) == Ok(list)
      {
        var kept := conditions.Parse(ItemKey(filter, target, i), false, env);
        if kept.Fault? {
          assert Candidates(i + 1, filter, target, env).Fault?;
          CandidatesRaise(i + 1, n, filter, target, env);
          return Fault;
        }
        assert Keeps(filter, target, i, env) == Ok(kept.value.0);
        if kept.value.0 {
          list := list + [i];
        }
        i := i + 1;
      }
      r := Ok(list);
    }

    /**
     * The `Indexes` getter: the filter loop over the `elements` items of the
     * target list, then the order-and-window pipeline; the length is stored in
     * `_count`.  A raising filter or a missing list leaves `_count` alone.
     */
    method Indexes(conditions: C.ConditionBinding, elements: Option<nat>, env: C.Env, order: string -> int)
      returns (r: Outcome<seq<int>>)
      requires conditions.Valid()
      modifies this`count, conditions
      ensures conditions.Valid()
      ensures r == Listing(elements, target, filter, sort, skip, limit, env, order)
      ensures count == if r.Ok? then Some(|r.value|) else old(count)
    {
      if elements.None? {
        return Fault;
      }
      var n := elements.value;
      var list: seq<int> := [];
      if filter != "" {
        var kept := Kept(conditions, n, env);
        if kept.Fault? {
          return Fault;
        }
        list := kept.value;
      } else {
        var i := 0;
        while i < n
          invariant 0 <= i <= n && list == Range(i)
        {
          list := list + [i];
          i := i + 1;
        }
      }
      list := Window(Ordered(list, target, sort, order), skip, limit);
      count := Some(|list|);
      r := Ok(list);
    }

    /**
     * The filter loop of the `Count` getter over `n` elements: how many the
     * filter keeps, or, when an evaluation raises, how many it had kept
     * before that.
     */
    method CountKept(conditions: C.ConditionBinding, n: nat, env: C.Env) returns (counted: nat, r: Outcome<()>)
      requires filter != "" && conditions.Valid()
      modifies conditions
      ensures conditions.Valid()
      ensures r.Fault? <==> Candidates(n, filter, target, env).Fault?
      ensures r.Ok? ==> counted == |Candidates(n, filter, target, env).value|
    {
      counted := 0;
      var i := 0;
      ghost var selected: seq<int> := [];
      while i < n
        invariant 0 <= i <= n && conditions.Valid()
        invariant Candidates(i, filter, target, env) == Ok(selected) && counted == |selected|
      {
        var kept := conditions.Parse(ItemKey(filter, target, i), false, env);
        if kept.Fault? {
          assert Candidates(i + 1, filter, target, env).Fault?;
          CandidatesRaise(i + 1, n, filter, target, env);
          return counted, Fault;
        }
        assert Keeps(filter, target, i, env) == Ok(kept.value.0);
        if kept.value.0 {
          counted := counted + 1;
          selected := selected + [i];
        }
        i := i + 1;
      }
      r := Ok(());
    }

    /**
     * The `Count` getter: counted once, by the filter loop alone, and cached
     * from then on; a target that is null after `as IEnumerable` counts 0.
     */
    method Count(conditions: C.ConditionBinding, elements: Option<nat>, env: C.Env) returns (r: Outcome<int>)
      requires conditions.Valid()
      modifies this`count, conditions
      ensures conditions.Valid()
      ensures old(count).Some? ==> r == Ok(old(count).value) && count == old(count)
      ensures old(count).None? ==> r == Counted(elements, filter, target, env) && count.Some?
      ensures old(count).None? && r.Ok? ==> count == Some(r.value)
    {
      if count.None? {
        // `_count` goes up as the loop goes; a raise leaves the partial count behind.
        var counted: nat := 0;
        if elements.Some? {
          if filter != "" {
            var outcome;
            counted, outcome := CountKept(conditions, elements.value, env);
            if outcome.Fault? {
              count := Some(counted);
              return Fault;
            }
          } else {
            var i := 0;
            while i < elements.value
              invariant 0 <= i <= elements.value && counted == i
            {
              counted := counted + 1;
              i := i + 1;
            }
          }
        }
        count := Some(counted);
      }
      r := Ok(count.value);
    }

    /** `ReleaseItem(item)`: release the item and deactivate its game object. */
    method ReleaseItem(item: RepeatItem)
      modifies item`dataIndex, item`index, item`active, item.group`alias, item.group`value
      ensures Released(item)
    {
      item.ReleaseItem();
      item.active := false;
    }

    /** `InitializeItem(item, dataIndex, index)`: activate the item and hand it the element. */
    method InitializeItem(db: Bindings.DataBinding, t: Tree, item: RepeatItem, dataIndex: int, index: int)
      requires t.Valid()
      modifies item`dataIndex, item`index, item`active, item.group`alias, item.group`value,
        item.group.binder`hierarchyLevel, db`rebuildList, db`rebuildCompleted
      ensures Shows(item, target, dataIndex, index)
      ensures item.group.binder.hierarchyLevel == old(item.group.binder.Level(t))
      ensures forall d, x: BinderId :: Bindings.Listed(db.rebuildList, d, x) <==> Bindings.Listed(old(db.rebuildList), d, x) || old(Queues(item, t, d, x))
      ensures db.rebuildCompleted == old(db.rebuildCompleted)
    {
      item.active := true;
      item.InitializeItem(db, t, target, dataIndex, index);
    }

    /** One pass of the reuse loop: child `item` at position `k` is re-initialized with `ix[k]`, or released past the end of `ix`. */
    method Settle(db: Bindings.DataBinding, t: Tree, item: RepeatItem, ix: seq<int>, k: int)
      requires t.Valid() && 0 <= k
      modifies item`dataIndex, item`index, item`active, item.group`alias, item.group`value,
        item.group.binder`hierarchyLevel, db`rebuildList, db`rebuildCompleted
      ensures Settled(item, target, ix, k)
      ensures item.group.binder.hierarchyLevel == if k < |ix| then old(item.group.binder.Level(t)) else old(item.group.binder.hierarchyLevel)
      ensures item.group.binder.Level(t) == old(item.group.binder.Level(t))
      ensures forall e, x :: Bindings.Listed(db.rebuildList, e, x) <==>
        Bindings.Listed(old(db.rebuildList), e, x) || (k < |ix| && old(Queues(item, t, e, x)))
      ensures db.rebuildCompleted == old(db.rebuildCompleted)
    {
      if k < |ix| {
        ReleaseItem(item);
        InitializeItem(db, t, item, ix[k], k);
      } else {
        ReleaseItem(item);
      }
    }

    /** `Clear`: release every child. */
    method Clear()
      requires Valid()
      modifies set c | c in children, set c | c in children :: c.group
      ensures forall k :: 0 <= k < |children| ==> Released(children[k])
    {
      for k := 0 to |children|
        invariant forall j :: 0 <= j < k ==> Released(children[j])
      {
        ReleaseItem(children[k]);
      }
    }

    /** `Release`, as the repeater overrides it: clear the children and nothing else. */
    method Release()
      requires Valid()
      modifies set c | c in children, set c | c in children :: c.group
      ensures forall k :: 0 <= k < |children| ==> Released(children[k])
    {
      Clear();
    }

    /**
     * The first half of a non-empty rebuild: child `k` shows `ix[k]` when
     * there is one and is released otherwise.
     */
    method Reuse(db: Bindings.DataBinding, t: Tree, ix: seq<int>)
      requires Valid() && t.Valid()
      modifies set c | c in children, set c | c in children :: c.group, set c | c in children :: c.group.binder,
        db`rebuildList, db`rebuildCompleted
      ensures forall k :: 0 <= k < |children| ==> Settled(children[k], target, ix, k)
      ensures forall d, x: BinderId :: Bindings.Listed(db.rebuildList, d, x) <==>
        Bindings.Listed(old(db.rebuildList), d, x) || (d, x) in old(Marks(children, t, if |ix| < |children| then |ix| else |children|))
      ensures forall k :: 0 <= k < |children| ==> children[k].group.binder.Level(t) == old(children[k].group.binder.Level(t))
      ensures db.rebuildCompleted == old(db.rebuildCompleted)
    {
      for k := 0 to |children|
        invariant forall j :: 0 <= j < k ==> Settled(children[j], target, ix, j)
        invariant forall j :: 0 <= j < |children| ==> children[j].group.binder.Level(t) == old(children[j].group.binder.Level(t))
        invariant forall d, x: BinderId :: Bindings.Listed(db.rebuildList, d, x) <==>
          Bindings.Listed(old(db.rebuildList), d, x) || (d, x) in old(Marks(children, t, if |ix| < k then |ix| else k))
        invariant db.rebuildCompleted == old(db.rebuildCompleted)
      {
        Settle(db, t, children[k], ix, k);
      }
    }

    /** `Instantiate(_prefab, Content)`, then `InitializeItem`: a new child, a copy numbered `copy`, showing `d` at `k`. */
    method Spawn(db: Bindings.DataBinding, t: Tree, d: int, k: int, copy: (BinderId, NodeId)) returns (item: RepeatItem)
      requires t.Valid()
      modifies db`rebuildList, db`rebuildCompleted
      ensures fresh(item) && fresh(item.group) && fresh(item.group.binder)
      ensures Shows(item, target, d, k) && item.group.binder.id == copy.0 && item.group.binder.node == copy.1
      ensures item.group.binder.Level(t) == Depth(t, copy.1)
      ensures forall e, x :: Bindings.Listed(db.rebuildList, e, x) <==>
        Bindings.Listed(old(db.rebuildList), e, x) || QueuesNew(item, t, e, x)
      ensures db.rebuildCompleted == old(db.rebuildCompleted)
    {
      var b := new DataBinder(copy.0, copy.1);
      var g := new AliasGroup(b);
      item := new RepeatItem(g);
      InitializeItem(db, t, item, d, k);
    }

    /**
     * The prefab half of a rebuild: one new child per index left over, the
     * one at position `k` made from the copy numbered `copies(k)`.
     */
    method Extend(db: Bindings.DataBinding, t: Tree, ix: seq<int>, copies: int -> (BinderId, NodeId))
      requires Valid() && t.Valid()
      modifies this`children, db`rebuildList, db`rebuildCompleted
      ensures Valid()
      ensures |children| == if |old(children)| < |ix| then |ix| else |old(children)|
      ensures children[..|old(children)|] == old(children)
      ensures forall k :: |old(children)| <= k < |children| ==>
        fresh(children[k]) && Shows(children[k], target, ix[k], k)
        && children[k].group.binder.id == copies(k).0 && children[k].group.binder.node == copies(k).1
      ensures forall d, x: BinderId :: Bindings.Listed(db.rebuildList, d, x) <==>
        Bindings.Listed(old(db.rebuildList), d, x) || exists k :: |old(children)| <= k < |children| && QueuesNew(children[k], t, d, x)
      ensures db.rebuildCompleted == old(db.rebuildCompleted)
    {
      var index := |children|;
      while index < |ix|
        invariant Valid()
        invariant index == |children| && (index == |old(children)| || index <= |ix|)
        invariant |old(children)| <= |children| && children[..|old(children)|] == old(children)
        invariant forall k :: |old(children)| <= k < |children| ==>
          fresh(children[k]) && fresh(children[k].group) && fresh(children[k].group.binder)
          && Shows(children[k], target, ix[k], k)
          && children[k].group.binder.id == copies(k).0 && children[k].group.binder.node == copies(k).1
          invariant forall d, x: BinderId :: Bindings.Listed(db.rebuildList, d, x) <==>
          Bindings.Listed(old(db.rebuildList), d, x) || exists k :: |old(children)| <= k < |children| && QueuesNew(children[k], t, d, x)
        invariant db.rebuildCompleted == old(db.rebuildCompleted)
      {
        var item := Spawn(db, t, ix[index], index, copies(index));
        children := children + [item];
        index := index + 1;
      }
    }

    /**
     * The children and the rebuild queue after a layout for the indexes `ix`,
     * given the children `before` it, the queue `list0` before it and the
     * entries `marks` the reused children add.  No index: every child is
     * released and nothing is queued.  Otherwise the old children come first,
     * child `k` shows `ix[k]` or is released past the end, the copies made
     * for the rest are `copies(k)`, and the queue gains exactly the entries of
     * the reused and the new children.
     */
    ghost predicate LaidOut(db: Bindings.DataBinding, t: Tree, ix: seq<int>, copies: int -> (BinderId, NodeId),
                            before: seq<RepeatItem>, list0: map<int, set<BinderId>>, marks: seq<(int, BinderId)>)
      requires t.Valid()
      reads this, db`rebuildList, set c | c in children, set c | c in children :: c.group
    {
      if ix == [] then
        children == before && db.rebuildList == list0
        && forall k :: 0 <= k < |children| ==> Released(children[k])
      else
        |children| == (if hasPrefab && |before| < |ix| then |ix| else |before|)
        && children[..|before|] == before
        && (forall k :: 0 <= k < |children| ==> Settled(children[k], target, ix, k))
        && (forall k :: |before| <= k < |children| ==>
              children[k].group.binder.id == copies(k).0 && children[k].group.binder.node == copies(k).1)
        && forall d, x: BinderId :: Bindings.Listed(db.rebuildList, d, x) <==>
             Bindings.Listed(list0, d, x) || (d, x) in marks
             || exists k :: |before| <= k < |children| && QueuesNew(children[k], t, d, x)
    }

    /**
     * The layout half of `RebuildAsync` for the indexes `ix`: no index
     * releases every child; otherwise the children are reused and, with a
     * prefab, extended.
     */
    method Layout(db: Bindings.DataBinding, t: Tree, ix: seq<int>, copies: int -> (BinderId, NodeId))
      requires Valid() && t.Valid()
      modifies db`rebuildList, db`rebuildCompleted, this`children,
        set c | c in children, set c | c in children :: c.group, set c | c in children :: c.group.binder
      ensures Valid()
      ensures LaidOut(db, t, ix, copies, old(children), old(db.rebuildList),
        old(Marks(children, t, if |ix| < |children| then |ix| else |children|)))
      ensures forall k :: |old(children)| <= k < |children| ==> fresh(children[k])
      ensures db.rebuildCompleted == old(db.rebuildCompleted)
    {
      if |ix| > 0 {
        Reuse(db, t, ix);
        if hasPrefab {
          label Reused:
          Extend(db, t, ix, copies);
          assert forall k :: 0 <= k < |old@Reused(children)| ==>
            Settled(children[k], target, ix, k) == old@Reused(Settled(children[k], target, ix, k));
          assert forall k :: 0 <= k < |children| ==> Settled(children[k], target, ix, k);
          assert forall d, x: BinderId :: Bindings.Listed(db.rebuildList, d, x) <==>
             Bindings.Listed(old(db.rebuildList), d, x)
             || (d, x) in old(Marks(children, t, if |ix| < |children| then |ix| else |children|))
             || exists k :: |old(children)| <= k < |children| && QueuesNew(children[k], t, d, x);
        }
      } else {
        Clear();
      }
    }

    /**
     * `DataBinding.Register(_target, this, gameObject)`: the repeater listens
     * to its target from its own node; the registry changes as `Register` says.
     */
    method Subscribe(db: Bindings.DataBinding, t: Tree, aliases: map<NodeId, string>, live: set<BinderId>)
      requires t.Valid() && db.Valid()
      modifies db`lazy, db.tries
      ensures db.Valid()
      ensures var rk := Bindings.ResolvedKey(t, aliases, target, Some(binder.node));
        var loc := old(db.Located(t, rk, Some(binder.node)));
        forall s, q :: s in db.references ==>
          db.BindersOf(s, q) == if binder.id in live && target != "" && loc == Some(s)
            then Bindings.AfterRegister(old(db.BindersOf(s, q)), Split(rk), q, binder.id, live) else old(db.BindersOf(s, q))
      ensures forall n :: 0 <= n <= |children| ==> Marks(children, t, n) == old(Marks(children, t, n))
    {
      var _, _ := db.Register(t, aliases, target, binder.id, Some(binder.node), live);
    }

    /**
     * The rest of `RebuildAsync`: compute the indexes (a raising filter or a
     * target that is null after `as IEnumerable` raises here and lays nothing
     * out), then lay the children out for them.
     */
    method Refresh(db: Bindings.DataBinding, t: Tree, conditions: C.ConditionBinding, elements: Option<nat>, env: C.Env,
                   order: string -> int, copies: int -> (BinderId, NodeId))
      returns (r: Outcome<()>)
      requires Valid() && t.Valid() && conditions.Valid()
      modifies db`rebuildList, db`rebuildCompleted, this`count, this`children, conditions,
        set c | c in children, set c | c in children :: c.group, set c | c in children :: c.group.binder
      ensures Valid() && conditions.Valid()
      ensures var l := Listing(elements, target, filter, sort, skip, limit, env, order);
        && (r.Fault? <==> l.Fault?)
        && (l.Fault? ==> children == old(children) && count == old(count) && db.rebuildList == old(db.rebuildList))
        && (l.Ok? ==>
              count == Some(|l.value|)
              && LaidOut(db, t, l.value, copies, old(children), old(db.rebuildList),
                   old(Marks(children, t, if |l.value| < |children| then |l.value| else |children|))))
      ensures forall k :: |old(children)| <= k < |children| ==> fresh(children[k])
      ensures db.rebuildCompleted == old(db.rebuildCompleted)
    {
      var indexes := Indexes(conditions, elements, env, order);
      if indexes.Fault? {
        return Fault;
      }
      ghost var reused := if |indexes.value| < |children| then |indexes.value| else |children|;
      assert Marks(children, t, reused) == old(Marks(children, t, reused));
      Layout(db, t, indexes.value, copies);
      r := Ok(());
    }

    /**
     * `RebuildAsync`: register the repeater at its target, compute the
     * indexes (a raising filter or a target that is null after `as IEnumerable`
     * raises here and lays nothing out), then lay the children out for them.
     */
    method RebuildAsync(db: Bindings.DataBinding, t: Tree, aliases: map<NodeId, string>, live: set<BinderId>,
                        conditions: C.ConditionBinding, elements: Option<nat>, env: C.Env, order: string -> int,
                        copies: int -> (BinderId, NodeId))
      returns (r: Outcome<()>)
      requires Valid() && t.Valid() && db.Valid() && conditions.Valid()
      modifies db`lazy, db.tries, db`rebuildList, db`rebuildCompleted, this`count, this`children, conditions,
        set c | c in children, set c | c in children :: c.group, set c | c in children :: c.group.binder
      ensures Valid() && conditions.Valid()
      ensures var l := Listing(elements, target, filter, sort, skip, limit, env, order);
        && (r.Fault? <==> l.Fault?)
        && (l.Fault? ==> children == old(children) && count == old(count) && db.rebuildList == old(db.rebuildList))
        && (l.Ok? ==>
              count == Some(|l.value|)
              && LaidOut(db, t, l.value, copies, old(children), old(db.rebuildList),
                   old(Marks(children, t, if |l.value| < |children| then |l.value| else |children|))))
      ensures forall k :: |old(children)| <= k < |children| ==> fresh(children[k])
      ensures db.rebuildCompleted == old(db.rebuildCompleted)
    {
      Subscribe(db, t, aliases, live);
      r := Refresh(db, t, conditions, elements, env, order, copies);
    }
  }

  /** Once the filter raises on a prefix of the list, it raises on the whole list. */
  lemma {:induction false} CandidatesRaise(i: nat, n: nat, filter: string, target: string, env: C.Env)
    requires i <= n && Candidates(i, filter, target, env).Fault?
    ensures Candidates(n, filter, target, env).Fault?
    decreases n - i
  {
    if i < n {
      CandidatesRaise(i + 1, n, filter, target, env);
    }
  }
}
