/**
 * `DataBindingReference`: one bucket of the binding runtime.  It holds the root
 * values by name, a cache of resolved dotted paths, and the dependency trie.
 * Paths are resolved member by member through .NET reflection; the step table
 * `Member` and the in-place store `Store` say what each kind of value offers.
 */
module BindingReferences {
  import opened Wrappers
  import opened Text
  import opened Values
  import opened References

  const MinInt64: int := -0x8000_0000_0000_0000
  const MaxInt64: int := 0x7FFF_FFFF_FFFF_FFFF

  /**
   * `long.TryParse(key, out index)`: an optionally signed decimal in the Int64
   * range, surrounded by any white space.
   */
  function IndexOf(key: string): (r: Option<int>)
    ensures r.Some? ==> MinInt64 <= r.value <= MaxInt64 && ParseInteger(key) == r
  {
    var n := ParseInteger(key);
    if n.Some? && MinInt64 <= n.value <= MaxInt64 then n else None
  }

  /** The unchecked `(int)` cast of a long: two's-complement truncation to 32 bits. */
  function ToInt32(x: int): (r: int)
    ensures InInt32(r)
    ensures InInt32(x) ==> r == x
  {
    (x - MinInt32) % 0x1_0000_0000 + MinInt32
  }

  // ---------------------------------------------------------------------------
  // Reading one member

  /** What one step of the path walk does to the current value. */
  datatype Step =
    | Hit(v: Value)   // a member was read; the walker caches it
    | Miss            // no such member: the walk yields null
    | Keep            // an integer segment the value has no integer indexer for: skipped
    | Throw           // the reflection call raises

  /**
   * The member `key` of the non-null value `data`, as the walker finds it: an
   * integer segment indexes a list (in range) or a string (its `Chars` indexer);
   * otherwise a public field, a public property (`Count`, `Length`; an indexer
   * property read without an index raises), and finally a string-keyed indexer.
   * A string whose text is "null" hides its properties.
   */
  function Member(heap: Heap, data: Value, key: string): Step
    requires data != Null
  {
    var index := IndexOf(key);
    match data
    case Ref(a) =>
      if a !in heap then Miss
      else (match heap[a]
        case List(items) =>
          if index.Some? then (if 0 <= index.value < |items| then Hit(items[index.value]) else Miss)
          else if key == "Count" then Hit(Int(|items|))
          else if key == "Item" then Throw
          else Miss
        case Dict(entries) =>
          if index.Some? then Keep
          else if key == "Count" then Hit(Int(|entries|))
          else if key == "Item" then Throw
          else if key in entries then Hit(entries[key])
          else Throw
        case Obj(_, fields, _) =>
          if index.None? && key in fields then Hit(fields[key]) else Miss)
    case Str(s) =>
      if index.Some? then
        (var j := ToInt32(index.value); if 0 <= j < |s| then Hit(Char(s[j])) else Throw)
      else if key == "Length" || key == "Chars" then
        (if s == "null" then Miss else if key == "Length" then Hit(Int(|s|)) else Throw)
      else Miss
    case _ => Miss
  }

  /** The value the walk from `data` along `keys` ends on; `Fault` when a step raises. */
  function WalkValue(heap: Heap, data: Value, keys: seq<string>): Outcome<Value>
    decreases |keys|
  {
    if keys == [] || data == Null then Ok(data)
    else match Member(heap, data, keys[0])
      case Hit(v) => WalkValue(heap, v, keys[1..])
      case Miss => Ok(Null)
      case Keep => WalkValue(heap, data, keys[1..])
      case Throw => Fault
  }

  /** The cache entries the walk writes, keyed by the dotted path read so far. */
  function WalkWrites(heap: Heap, preKey: string, data: Value, keys: seq<string>): map<string, Value>
    decreases |keys|
  {
    if keys == [] || data == Null then map[]
    else
      var full := preKey + [Delimiter] + keys[0];
      match Member(heap, data, keys[0])
      case Hit(v) => map[full := v] + WalkWrites(heap, full, v, keys[1..])
      case Miss => map[]
      case Keep => WalkWrites(heap, full, data, keys[1..])
      case Throw => map[]
  }

  /** A walk along `a + b` is a walk along `a` continued along `b`. */
  lemma {:induction false} WalkValueAppend(heap: Heap, data: Value, a: seq<string>, b: seq<string>)
    ensures WalkValue(heap, data, a + b) ==
      match WalkValue(heap, data, a)
      case Ok(v) => WalkValue(heap, v, b)
      case Fault => Fault
    decreases |a|
  {
    if a == [] {
      assert a + b == b;
    } else if data != Null {
      assert (a + b)[0] == a[0] && (a + b)[1..] == a[1..] + b;
      match Member(heap, data, a[0])
      case Hit(v) => WalkValueAppend(heap, v, a[1..], b);
      case Keep => WalkValueAppend(heap, data, a[1..], b);
      case Miss =>
      case Throw =>
    }
  }

  // ---------------------------------------------------------------------------
  // Roots, paths and the cache

  function GetIn(data: map<string, Value>, key: string): Value {
    if key in data then data[key] else Null
  }

  /** The value of the dotted path `segs` (root name first) over the roots `data`. */
  function Resolve(data: map<string, Value>, heap: Heap, segs: seq<string>): Outcome<Value>
    requires |segs| >= 1
  {
    WalkValue(heap, GetIn(data, segs[0]), segs[1..])
  }

  /** Every cache entry holds the current value of the path it is keyed by. */
  predicate Consistent(data: map<string, Value>, heap: Heap, cache: map<string, Value>) {
    forall k :: k in cache ==> Resolve(data, heap, Split(k)) == Ok(cache[k])
  }

  lemma {:induction false} JoinSnoc(segs: seq<string>, x: string)
    requires |segs| >= 1
    ensures Join(segs + [x]) == Join(segs) + [Delimiter] + x
    decreases |segs|
  {
    if |segs| >= 2 {
      assert (segs + [x])[1..] == segs[1..] + [x];
      JoinSnoc(segs[1..], x);
    }
  }

  lemma SegmentsSlice(segs: seq<string>, i: nat, j: nat)
    requires Segments(segs) && i <= j <= |segs|
    ensures Segments(segs[i..j])
  {
    assert forall n :: 0 <= n < j - i ==> segs[i..j][n] == segs[i + n];
  }

  /**
   * Resuming a walk from the value of the prefix `segs[..m]` writes only entries
   * that are consistent: each holds the value of the path it is keyed by.
   */
  lemma {:induction false} WalkWritesConsistent(data: map<string, Value>, heap: Heap, segs: seq<string>, m: nat, v: Value)
    requires 1 <= m <= |segs| && Segments(segs)
    requires Resolve(data, heap, segs[..m]) == Ok(v)
    ensures forall k :: k in WalkWrites(heap, Join(segs[..m]), v, segs[m..]) ==>
      Resolve(data, heap, Split(k)) == Ok(WalkWrites(heap, Join(segs[..m]), v, segs[m..])[k])
    decreases |segs| - m
  {
    if m < |segs| && v != Null {
      var full := Join(segs[..m]) + [Delimiter] + segs[m];
      assert segs[..m] + [segs[m]] == segs[..m + 1];
      JoinSnoc(segs[..m], segs[m]);
      assert full == Join(segs[..m + 1]);
      assert segs[m..][0] == segs[m] && segs[m..][1..] == segs[m + 1..];
      var root := GetIn(data, segs[0]);
      assert segs[..m + 1][1..] == segs[..m][1..] + [segs[m]];
      WalkValueAppend(heap, root, segs[..m][1..], [segs[m]]);
      assert Resolve(data, heap, segs[..m + 1]) == WalkValue(heap, v, [segs[m]]);
      match Member(heap, v, segs[m])
      case Hit(w) =>
        WalkWritesConsistent(data, heap, segs, m + 1, w);
        SegmentsSlice(segs, 0, m + 1);
        SplitJoin(segs[..m + 1]);
      case Keep =>
        WalkWritesConsistent(data, heap, segs, m + 1, v);
      case Miss =>
      case Throw =>
    }
  }

  /** A cached entry is dropped by `ClearCache(key, strict)`. */
  predicate Evicted(entry: string, key: string, strict: bool) {
    if key == "" then true
    else if strict then entry == key || StartsWith(entry, key + [Delimiter])
    else StartsWith(entry, key)
  }

  /** The cache `ClearCache(key, strict)` leaves: the entries `Evicted` does not select, unchanged. */
  function Cleared(cache: map<string, Value>, key: string, strict: bool): (r: map<string, Value>)
    ensures forall k :: k in r <==> k in cache && !Evicted(k, key, strict)
    ensures forall k :: k in r ==> r[k] == cache[k]
    ensures cache == map[] ==> r == map[]
  {
    map k | k in cache && !Evicted(k, key, strict) :: cache[k]
  }

  /** The strict rule drops a subset of what the loose rule drops. */
  lemma StrictEvictsLess(entry: string, key: string)
    ensures Evicted(entry, key, true) ==> Evicted(entry, key, false)
  {
    if key != "" && StartsWith(entry, key + [Delimiter]) {
      assert entry[..|key|] == (key + [Delimiter])[..|key|];
    }
  }

  /** The first segment of a path is a prefix of the path's text. */
  lemma {:induction false} SplitHeadIsPrefix(s: string)
    ensures StartsWith(s, Split(s)[0])
  {
    if s != [] {
      SplitHeadIsPrefix(s[1..]);
    }
  }

  /**
   * Replacing the root `key` and then clearing the cache loosely under `key`
   * (what `DataBinding.Set` does through `Notify`) leaves a consistent cache.
   */
  lemma SetThenClearKeepsConsistent(data: map<string, Value>, heap: Heap, cache: map<string, Value>,
                                    key: string, v: Value, cleared: map<string, Value>)
    requires Consistent(data, heap, cache)
    requires forall k :: k in cleared <==> k in cache && !Evicted(k, key, false)
    requires forall k :: k in cleared ==> cleared[k] == cache[k]
    ensures Consistent(data[key := v], heap, cleared)
  {
    forall k | k in cleared ensures Resolve(data[key := v], heap, Split(k)) == Ok(cleared[k]) {
      SplitHeadIsPrefix(k);
      assert Split(k)[0] != key;
    }
  }

  // ---------------------------------------------------------------------------
  // Writing one member

  /** The writable slot `key` of a container: an in-range list item, an existing dictionary entry, a field. */
  function Slot(heap: Heap, data: Value, key: string): Option<Value> {
    var index := IndexOf(key);
    if !data.Ref? || data.addr !in heap then None
    else match heap[data.addr]
      case List(items) =>
        if index.Some? && 0 <= index.value < |items| then Some(items[index.value]) else None
      case Dict(entries) =>
        if index.None? && key != "Count" && key != "Item" && key in entries then Some(entries[key]) else None
      case Obj(_, fields, _) =>
        if index.None? && key in fields then Some(fields[key]) else None
  }

  lemma SlotIsMember(heap: Heap, data: Value, key: string)
    requires Slot(heap, data, key).Some?
    ensures data != Null && Member(heap, data, key) == Hit(Slot(heap, data, key).value)
  {
  }

  /** The members of a container, without their values. */
  datatype Shape =
    | ListShape(n: nat)
    | DictShape(keys: set<string>)
    | ObjShape(cls: string, names: set<string>, kinds: map<string, Kind>)

  function ShapeOf(c: Container): Shape {
    match c
    case List(items) => ListShape(|items|)
    case Dict(entries) => DictShape(entries.Keys)
    case Obj(cls, fields, kinds) => ObjShape(cls, fields.Keys, kinds)
  }

  /** Same containers, with the same members: only member values may differ. */
  predicate SameShape(h1: Heap, h2: Heap) {
    h1.Keys == h2.Keys && forall a :: a in h1 ==> ShapeOf(h1[a]) == ShapeOf(h2[a])
  }

  /** Heaps of the same shape give every value the same run-time type, hence the same conversions. */
  lemma SameShapeConverts(h1: Heap, h2: Heap, v: Value, k: Kind)
    requires SameShape(h1, h2)
    ensures KindOf(h1, v) == KindOf(h2, v)
    ensures ChangeType(h1, v, k) == ChangeType(h2, v, k)
  {
    if v.Ref? && v.addr in h1 {
      assert ShapeOf(h1[v.addr]) == ShapeOf(h2[v.addr]);
    }
  }

  /** Heaps of the same shape assign the same values. */
  lemma AssignedSameShape(h1: Heap, h2: Heap, c: Container, key: string, v: Value)
    requires SameShape(h1, h2)
    ensures Assigned(h1, c, key, v) == Assigned(h2, c, key, v)
  {
    if SlotKind(c, key).Some? {
      SameShapeConverts(h1, h2, v, SlotKind(c, key).value);
    }
  }

  /**
   * The declared type a value written back into the slot `key` of `c` is
   * converted to: a list item (`IList` indexer) is assigned as it is; a
   * dictionary entry is `object`; a field has its declared type, `object`
   * unless `kinds` says otherwise.
   */
  function SlotKind(c: Container, key: string): Option<Kind> {
    match c
    case List(_) => None
    case Dict(_) => Some(KObject)
    case Obj(_, _, kinds) => Some(if key in kinds then kinds[key] else KObject)
  }

  /**
   * The value writing `v` back into the slot `key` of `c` assigns:
   * `Convert.ChangeType(v, declared type)`, or `None` when that raises.
   */
  function Assigned(heap: Heap, c: Container, key: string, v: Value): (r: Option<Value>)
    ensures c.List? ==> r == Some(v)
    ensures c.Dict? ==> (r.Some? <==> !v.Ref?) && (r.Some? ==> r.value == v)
    ensures c.Obj? && r.Some? ==>
      r.value == Null || KindOf(heap, r.value) == SlotKind(c, key).value || (SlotKind(c, key) == Some(KObject) && r.value == v)
  {
    match SlotKind(c, key)
    case None => Some(v)
    case Some(k) =>
      ObjectTarget(heap, v);
      match ChangeType(heap, v, k)
      case Converted(w) => Some(w)
      case _ => None
  }

  /** Overwrite the slot `key` of container `c` (which has that slot) with `v`. */
  function Put(c: Container, key: string, v: Value): (r: Container)
    ensures ShapeOf(r) == ShapeOf(c)
  {
    var index := IndexOf(key);
    match c
    case List(items) =>
      if index.Some? && 0 <= index.value < |items| then List(items[index.value := v]) else c
    case Dict(entries) =>
      if key in entries then
        assert entries[key := v].Keys == entries.Keys;
        Dict(entries[key := v])
      else c
    case Obj(cls, fields, kinds) =>
      if key in fields then
        assert fields[key := v].Keys == fields.Keys;
        Obj(cls, fields[key := v], kinds)
      else c
  }

  /**
   * The private `SetValue(keyArray, data, value)`: store `value` at the path `keys`
   * below `data`, writing the result of each nested store back into its parent
   * member.  With no keys left it yields `value`; otherwise it yields `data`
   * itself, whether or not the path resolved.  A step the value does not offer
   * ends the store silently; a read-only property, a missing dictionary key, a
   * string indexer or a null value raise, and so does a write-back whose
   * conversion to the slot's declared type raises.
   */
  function Store(heap: Heap, keys: seq<string>, data: Value, value: Value): (r: Outcome<(Heap, Value)>)
    ensures keys == [] ==> r == Ok((heap, value))
    ensures r.Ok? && keys != [] ==> r.value.1 == data
    ensures r.Ok? ==> SameShape(heap, r.value.0)
    decreases |keys|
  {
    if keys == [] then Ok((heap, value))
    else
      var key := keys[0];
      var index := IndexOf(key);
      match data
      case Null => Fault
      case Ref(a) =>
        if a !in heap then Ok((heap, data))
        else (match heap[a]
          case List(items) =>
            if index.Some? then
              if 0 <= index.value < |items| then StoreInto(heap, a, keys, items[index.value], value)
              else Ok((heap, data))
            else if key == "Count" || key == "Item" then Fault
            else Ok((heap, data))
          case Dict(entries) =>
            if index.Some? then Ok((heap, data))
            else if key == "Count" || key == "Item" || key !in entries then Fault
            else StoreInto(heap, a, keys, entries[key], value)
          case Obj(_, fields, _) =>
            if index.None? && key in fields then StoreInto(heap, a, keys, fields[key], value)
            else Ok((heap, data)))
      case Str(s) =>
        if index.Some? then Fault
        else if (key == "Length" || key == "Chars") && s != "null" then Fault
        else Ok((heap, data))
      case _ => Ok((heap, data))
  }

  /**
   * Store below the member `keys[0]` of container `a`, then write the result
   * back into it, converted to the member's declared type.
   */
  function StoreInto(heap: Heap, a: Addr, keys: seq<string>, member: Value, value: Value): (r: Outcome<(Heap, Value)>)
    requires a in heap && |keys| >= 1
    ensures r.Ok? ==> SameShape(heap, r.value.0) && r.value.1 == Ref(a)
    ensures r.Ok? ==> Store(heap, keys[1..], member, value).Ok?
    ensures Store(heap, keys[1..], member, value).Ok? ==>
      var (h, v) := Store(heap, keys[1..], member, value).value;
      r.Ok? <==> Assigned(h, h[a], keys[0], v).Some?
    decreases |keys|, 0
  {
    match Store(heap, keys[1..], member, value)
    case Fault => Fault
    case Ok((h, v)) =>
      match Assigned(h, h[a], keys[0], v)
      case None => Fault
      case Some(w) => Ok((h[a := Put(h[a], keys[0], w)], Ref(a)))
  }

  /** The containers a walk inspects. */
  function Reached(heap: Heap, data: Value, keys: seq<string>): set<Addr>
    decreases |keys|
  {
    if keys == [] || data == Null then {}
    else
      var here := if data.Ref? then {data.addr} else {};
      match Member(heap, data, keys[0])
      case Hit(v) => here + Reached(heap, v, keys[1..])
      case Keep => here + Reached(heap, data, keys[1..])
      case _ => here
  }

  /** A walk reads only the containers it reaches. */
  lemma {:induction false} WalkFrame(h1: Heap, h2: Heap, data: Value, keys: seq<string>)
    requires forall a :: a in Reached(h1, data, keys) ==> (a in h1 <==> a in h2) && (a in h1 ==> h1[a] == h2[a])
    ensures WalkValue(h1, data, keys) == WalkValue(h2, data, keys)
    ensures Reached(h1, data, keys) == Reached(h2, data, keys)
    decreases |keys|
  {
    if keys != [] && data != Null {
      assert Member(h1, data, keys[0]) == Member(h2, data, keys[0]);
      match Member(h1, data, keys[0])
      case Hit(v) => WalkFrame(h1, h2, v, keys[1..]);
      case Keep => WalkFrame(h1, h2, data, keys[1..]);
      case Miss =>
      case Throw =>
    }
  }

  /**
   * A path every segment of which names a writable slot, through containers none
   * of which is reached again further down the path, where every write-back
   * converts: `value` to the last slot's declared type, and each container on
   * the way to the type of the slot holding it, unchanged.
   */
  predicate Storable(heap: Heap, keys: seq<string>, data: Value, value: Value)
    decreases |keys|
  {
    |keys| >= 1 && Slot(heap, data, keys[0]).Some?
    && (var member := Slot(heap, data, keys[0]).value;
        if |keys| == 1 then Assigned(heap, heap[data.addr], keys[0], value).Some?
        else
          Storable(heap, keys[1..], member, value)
          && data.addr !in Reached(heap, member, keys[1..])
          && Assigned(heap, heap[data.addr], keys[0], member) == Some(member))
  }

  /**
   * The value a store along a storable path leaves in its last slot: `value`
   * converted to that slot's declared type.
   */
  function Landed(heap: Heap, keys: seq<string>, data: Value, value: Value): (r: Value)
    requires Storable(heap, keys, data, value)
    ensures r == value || exists k :: ChangeType(heap, value, k) == Converted(r)
    decreases |keys|
  {
    if |keys| == 1 then
      var c := heap[data.addr];
      if c.List? then value
      else
        assert Assigned(heap, c, keys[0], value) == Some(ChangeType(heap, value, SlotKind(c, keys[0]).value).v);
        Assigned(heap, c, keys[0], value).value
    else Landed(heap, keys[1..], Slot(heap, data, keys[0]).value, value)
  }

  /**
   * Storing along a storable path succeeds, and walking the same path in the new
   * heap reads back the stored value as its last slot converted it.  Only the
   * containers on the path change.
   */
  lemma {:induction false} StoreThenWalk(heap: Heap, keys: seq<string>, data: Value, value: Value)
    requires Storable(heap, keys, data, value)
    ensures Store(heap, keys, data, value).Ok?
    ensures WalkValue(Store(heap, keys, data, value).value.0, data, keys) == Ok(Landed(heap, keys, data, value))
    ensures Reached(Store(heap, keys, data, value).value.0, data, keys) == Reached(heap, data, keys)
    ensures forall a :: a in heap && a !in Reached(heap, data, keys) ==> Store(heap, keys, data, value).value.0[a] == heap[a]
    decreases |keys|
  {
    if |keys| == 1 {
      StoreLast(heap, keys, data, value);
    } else {
      StoreThenWalk(heap, keys[1..], Slot(heap, data, keys[0]).value, value);
      StoreThrough(heap, keys, data, value);
    }
  }

  /** The last step of `StoreThenWalk`: the slot receives the converted value. */
  lemma StoreLast(heap: Heap, keys: seq<string>, data: Value, value: Value)
    requires |keys| == 1 && Storable(heap, keys, data, value)
    ensures Store(heap, keys, data, value).Ok?
    ensures WalkValue(Store(heap, keys, data, value).value.0, data, keys) == Ok(Landed(heap, keys, data, value))
    ensures Reached(Store(heap, keys, data, value).value.0, data, keys) == Reached(heap, data, keys)
    ensures forall a :: a in heap && a !in Reached(heap, data, keys) ==> Store(heap, keys, data, value).value.0[a] == heap[a]
  {
    var a := data.addr;
    var key := keys[0];
    var member := Slot(heap, data, key).value;
    SlotIsMember(heap, data, key);
    assert Store(heap, keys, data, value) == StoreInto(heap, a, keys, member, value);
    var w := Assigned(heap, heap[a], key, value).value;
    var h' := heap[a := Put(heap[a], key, w)];
    assert Store(heap, keys, data, value) == Ok((h', data));
    assert Slot(h', data, key) == Some(w);
    SlotIsMember(h', data, key);
  }

  /** An inner step of `StoreThenWalk`: the container written back is the one read. */
  lemma StoreThrough(heap: Heap, keys: seq<string>, data: Value, value: Value)
    requires |keys| >= 2 && Storable(heap, keys, data, value)
    requires var member := Slot(heap, data, keys[0]).value;
      Store(heap, keys[1..], member, value).Ok?
      && WalkValue(Store(heap, keys[1..], member, value).value.0, member, keys[1..]) == Ok(Landed(heap, keys[1..], member, value))
      && Reached(Store(heap, keys[1..], member, value).value.0, member, keys[1..]) == Reached(heap, member, keys[1..])
      && forall a :: a in heap && a !in Reached(heap, member, keys[1..]) ==> Store(heap, keys[1..], member, value).value.0[a] == heap[a]
    ensures Store(heap, keys, data, value).Ok?
    ensures WalkValue(Store(heap, keys, data, value).value.0, data, keys) == Ok(Landed(heap, keys, data, value))
    ensures Reached(Store(heap, keys, data, value).value.0, data, keys) == Reached(heap, data, keys)
    ensures forall a :: a in heap && a !in Reached(heap, data, keys) ==> Store(heap, keys, data, value).value.0[a] == heap[a]
  {
    var a := data.addr;
    var key := keys[0];
    var member := Slot(heap, data, key).value;
    var rest := keys[1..];
    SlotIsMember(heap, data, key);
    assert Store(heap, keys, data, value) == StoreInto(heap, a, keys, member, value);
    var h1 := Store(heap, rest, member, value).value.0;
    assert Store(heap, rest, member, value).value.1 == member;
    assert h1[a] == heap[a];
    AssignedSameShape(heap, h1, heap[a], key, member);
    var h' := h1[a := Put(h1[a], key, member)];
    assert Store(heap, keys, data, value) == Ok((h', data));
    assert Slot(h', data, key) == Some(member);
    SlotIsMember(h', data, key);
    WalkFrame(h1, h', member, rest);
  }

  /**
   * A nested store through a dictionary entry (named by a key that is not an
   * integer) that holds a container raises:
   * the entry is declared `object`, and the container written back into it is
   * not `IConvertible`.
   */
  lemma NestedDictStoreRaises(heap: Heap, keys: seq<string>, a: Addr, value: Value)
    requires a in heap && heap[a].Dict? && |keys| >= 2
    requires keys[0] in heap[a].entries && heap[a].entries[keys[0]].Ref? && IndexOf(keys[0]).None?
    ensures Store(heap, keys, Ref(a), value) == Fault
  {
    var member := heap[a].entries[keys[0]];
    DictEntryStep(heap, keys, a, value);
    if keys[0] != "Count" && keys[0] != "Item" {
      var inner := Store(heap, keys[1..], member, value);
      if inner.Ok? {
        var h := inner.value.0;
        assert inner.value.1 == member;
        assert ShapeOf(h[a]) == ShapeOf(heap[a]);
        assert Assigned(h, h[a], keys[0], member) == None;
      }
    }
  }

  /** The store's step into a dictionary entry named by a key that is not an integer. */
  lemma DictEntryStep(heap: Heap, keys: seq<string>, a: Addr, value: Value)
    requires a in heap && heap[a].Dict? && |keys| >= 1
    requires keys[0] in heap[a].entries && IndexOf(keys[0]).None?
    ensures Store(heap, keys, Ref(a), value) ==
      if keys[0] == "Count" || keys[0] == "Item" then Fault
      else StoreInto(heap, a, keys, heap[a].entries[keys[0]], value)
  {
  }

  /** Storing a container into a dictionary entry raises; storing a scalar or null assigns it as it is. */
  lemma DictEntryStore(heap: Heap, key: string, a: Addr, value: Value)
    requires a in heap && heap[a].Dict? && key in heap[a].entries && IndexOf(key).None?
    requires key != "Count" && key != "Item"
    ensures Store(heap, [key], Ref(a), value) ==
      if value.Ref? then Fault else Ok((heap[a := Put(heap[a], key, value)], Ref(a)))
  {
    DictEntryStep(heap, [key], a, value);
    assert Store(heap, [], heap[a].entries[key], value) == Ok((heap, value));
  }

  /**
   * Storing into a field declared of type `k` assigns `value` converted to `k`,
   * and raises when the conversion does: text into an `int` field is parsed,
   * a container into a field declared `object` is refused.
   */
  lemma FieldStoreConverts(heap: Heap, key: string, a: Addr, k: Kind, value: Value)
    requires a in heap && heap[a].Obj? && key in heap[a].fields && IndexOf(key).None?
    requires key in heap[a].kinds && heap[a].kinds[key] == k
    ensures Store(heap, [key], Ref(a), value) ==
      match ChangeType(heap, value, k)
      case Converted(w) => Ok((heap[a := Put(heap[a], key, w)], Ref(a)))
      case _ => Fault
  {
    assert Store(heap, [key], Ref(a), value) == StoreInto(heap, a, [key], heap[a].fields[key], value);
    assert Store(heap, [], heap[a].fields[key], value) == Ok((heap, value));
  }

  /** An `int` field given the text "5" holds 5. */
  lemma IntFieldParsesText(heap: Heap, key: string, a: Addr)
    requires a in heap && heap[a].Obj? && key in heap[a].fields && IndexOf(key).None?
    requires key in heap[a].kinds && heap[a].kinds[key] == KInt
    ensures Store(heap, [key], Ref(a), Str("5")) == Ok((heap[a := Put(heap[a], key, Int(5))], Ref(a)))
  {
    assert ParseInteger("5") == Some(5) by { IntToStringRoundTrip(5); }
    IntFromText(heap, "5");
    FieldStoreConverts(heap, key, a, KInt, Str("5"));
  }

  // ---------------------------------------------------------------------------
  // The bucket

  /** The longest proper prefix `keyList[..m]`, `1 <= m <= j`, whose path is cached. */
  function LongestCached(cache: map<string, Value>, keyList: seq<string>, j: nat): (r: Option<nat>)
    requires j <= |keyList|
    ensures r.Some? ==> (1 <= r.value <= j && Join(keyList[..r.value]) in cache
                         && forall m :: r.value < m <= j ==> Join(keyList[..m]) !in cache)
    ensures r.None? ==> forall m :: 1 <= m <= j ==> Join(keyList[..m]) !in cache
  {
    if j == 0 then None
    else if Join(keyList[..j]) in cache then Some(j)
    else LongestCached(cache, keyList, j - 1)
  }

  /**
   * What `GetValue(keyList)` returns and the cache it leaves: a hit on the whole
   * path as cached; otherwise the walk resumed from the longest cached prefix
   * over the re-split remainder, or else from the root entry, with the entries
   * that walk writes merged into the cache.
   */
  function Fetched(data: map<string, Value>, heap: Heap, cache: map<string, Value>, keyList: seq<string>)
    : (r: (Outcome<Value>, map<string, Value>))
    requires |keyList| >= 1
    ensures Join(keyList) in cache ==> r.1 == cache
    ensures cache.Keys <= r.1.Keys
  {
    if Join(keyList) in cache then (Ok(cache[Join(keyList)]), cache)
    else match LongestCached(cache, keyList, |keyList| - 1)
      case Some(m) =>
        var v := cache[Join(keyList[..m])];
        var rest := Split(Join(keyList[m..]));
        (WalkValue(heap, v, rest), cache + WalkWrites(heap, Join(keyList[..m]), v, rest))
      case None =>
        var v := GetIn(data, keyList[0]);
        (WalkValue(heap, v, keyList[1..]), cache + WalkWrites(heap, keyList[0], v, keyList[1..]))
  }

  /** Moving the last segment of a prefix onto the front of the remainder. */
  lemma JoinFrom(keyList: seq<string>, m: nat)
    requires 1 <= m < |keyList|
    ensures Join(keyList[m - 1..]) == keyList[m - 1] + [Delimiter] + Join(keyList[m..])
  {
    assert keyList[m - 1..][1..] == keyList[m..];
  }

  /** `Fetched` after a miss on the whole path, one case per outcome of the prefix search. */
  lemma FetchedCases(data: map<string, Value>, heap: Heap, cache: map<string, Value>, keyList: seq<string>)
    requires |keyList| >= 1 && Join(keyList) !in cache
    ensures match LongestCached(cache, keyList, |keyList| - 1)
      case Some(m) =>
        var v := cache[Join(keyList[..m])];
        var rest := Split(Join(keyList[m..]));
        Fetched(data, heap, cache, keyList) == (WalkValue(heap, v, rest), cache + WalkWrites(heap, Join(keyList[..m]), v, rest))
      case None =>
        var v := GetIn(data, keyList[0]);
        Fetched(data, heap, cache, keyList) == (WalkValue(heap, v, keyList[1..]), cache + WalkWrites(heap, keyList[0], v, keyList[1..]))
  {
  }

  /** Walking on from a correctly cached prefix gives the value of the whole path and keeps the cache consistent. */
  lemma ResumeConsistent(data: map<string, Value>, heap: Heap, keyList: seq<string>, m: nat, v: Value,
                         before: map<string, Value>, writes: map<string, Value>)
    requires 1 <= m <= |keyList| && Segments(keyList)
    requires Consistent(data, heap, before)
    requires Resolve(data, heap, keyList[..m]) == Ok(v)
    requires writes == WalkWrites(heap, Join(keyList[..m]), v, keyList[m..])
    ensures WalkValue(heap, v, keyList[m..]) == Resolve(data, heap, keyList)
    ensures Consistent(data, heap, before + writes)
  {
    assert keyList[1..] == keyList[..m][1..] + keyList[m..];
    WalkValueAppend(heap, GetIn(data, keyList[0]), keyList[..m][1..], keyList[m..]);
    WalkWritesConsistent(data, heap, keyList, m, v);
  }

  /**
   * Over a consistent cache and a path whose segments hold no delimiter, the
   * fetch yields the path's value and leaves the cache consistent.
   */
  lemma FetchedConsistent(data: map<string, Value>, heap: Heap, cache: map<string, Value>, keyList: seq<string>)
    requires |keyList| >= 1 && Segments(keyList) && Consistent(data, heap, cache)
    ensures Fetched(data, heap, cache, keyList).0 == Resolve(data, heap, keyList)
    ensures Consistent(data, heap, Fetched(data, heap, cache, keyList).1)
  {
    if Join(keyList) in cache {
      SplitJoin(keyList);
    } else {
      match LongestCached(cache, keyList, |keyList| - 1)
      case Some(m) =>
        SegmentsSlice(keyList, m, |keyList|);
        SplitJoin(keyList[m..]);
        SegmentsSlice(keyList, 0, m);
        SplitJoin(keyList[..m]);
        ResumeConsistent(data, heap, keyList, m, cache[Join(keyList[..m])], cache,
                         WalkWrites(heap, Join(keyList[..m]), cache[Join(keyList[..m])], keyList[m..]));
      case None =>
        assert keyList[..1] == [keyList[0]];
        ResumeConsistent(data, heap, keyList, 1, GetIn(data, keyList[0]), cache,
                         WalkWrites(heap, keyList[0], GetIn(data, keyList[0]), keyList[1..]));
    }
  }

  lemma UpdateThenMerge<K, V>(m: map<K, V>, k: K, v: V, w: map<K, V>)
    ensures m + (map[k := v] + w) == m[k := v] + w
  {
  }

  class DataBindingReference {
    /** `_data`: the root values by name. */
    var data: map<string, Value>
    /** `_cache`: resolved dotted paths. */
    var cache: map<string, Value>
    /** `_reference`: the dependency trie of this bucket. */
    const reference: DataReference

    ghost predicate Valid()
      reads reference
    {
      reference.Valid()
    }

    constructor ()
      ensures Valid() && fresh(reference) && data == map[] && cache == map[]
      ensures reference.nodes == [[]] && reference.binders == map[]
    {
      data := map[];
      cache := map[];
      reference := new DataReference();
    }

    /** `Get(key)`: the root value, null when absent. */
    function Get(key: string): Value
      reads this
    {
      GetIn(data, key)
    }

    /** `Exist(key)`. */
    predicate Exist(key: string)
      reads this
    {
      key in data
    }

    /** `Set(key, value)`: replace the root; the cache is left alone. */
    method Set(key: string, value: Value)
      modifies this`data
      ensures data == old(data)[key := value]
      ensures Exist(key) && Get(key) == value
      ensures forall k :: k != key ==> Get(k) == old(Get(k)) && (Exist(k) <==> old(Exist(k)))
    {
      data := data[key := value];
    }

    /** `Remove(key)`. */
    method Remove(key: string)
      modifies this`data
      ensures data == old(data) - {key}
      ensures !Exist(key) && Get(key) == Null
      ensures forall k :: k != key ==> Get(k) == old(Get(k)) && (Exist(k) <==> old(Exist(k)))
    {
      data := data - {key};
    }

    /** `Release()`: drop every root and the whole cache. */
    method Release()
      modifies this`data, this`cache
      ensures data == map[] && cache == map[]
    {
      var keys := data.Keys;
      while keys != {}
        invariant data.Keys == keys
        decreases keys
      {
        var k :| k in keys;
        Remove(k);
        keys := keys - {k};
      }
      cache := map[];
    }

    /** `ClearCache(keys, strict)`: drop the entries `Evicted` selects, keep the rest. */
    method ClearCache(key: string, strict: bool)
      modifies this`cache
      ensures forall k :: k in cache <==> k in old(cache) && !Evicted(k, key, strict)
      ensures forall k :: k in cache ==> cache[k] == old(cache)[k]
      ensures cache == Cleared(old(cache), key, strict)
    {
      if key == "" {
        cache := map[];
      } else {
        cache := map k | k in cache && !Evicted(k, key, strict) :: cache[k];
      }
    }

    /**
     * The private `GetValue(preKey, keyArray, data)`: walk `keys` from `start`,
     * caching every member read under the dotted path that reached it.
     */
    method Walk(heap: Heap, preKey: string, keys: seq<string>, start: Value) returns (r: Outcome<Value>)
      modifies this`cache
      ensures r == WalkValue(heap, start, keys)
      ensures cache == old(cache) + WalkWrites(heap, preKey, start, keys)
    {
      var fullKey := preKey;
      var cur := start;
      var i := 0;
      while i < |keys|
        invariant 0 <= i <= |keys|
        invariant WalkValue(heap, cur, keys[i..]) == WalkValue(heap, start, keys)
        invariant cache + WalkWrites(heap, fullKey, cur, keys[i..]) == old(cache) + WalkWrites(heap, preKey, start, keys)
      {
        if cur == Null {
          break;
        }
        assert keys[i..][0] == keys[i] && keys[i..][1..] == keys[i + 1..];
        var w := WalkWrites(heap, fullKey + [Delimiter] + keys[i], cur, keys[i + 1..]);
        fullKey := fullKey + [Delimiter] + keys[i];
        match Member(heap, cur, keys[i]) {
          case Hit(v) =>
            UpdateThenMerge(cache, fullKey, v, WalkWrites(heap, fullKey, v, keys[i + 1..]));
            cur := v;
            cache := cache[fullKey := v];
          case Miss =>
            cur := Null;
          case Keep =>
            assert w == WalkWrites(heap, fullKey, cur, keys[i + 1..]);
          case Throw =>
            assert cache + map[] == cache;
            return Fault;
        }
        i := i + 1;
      }
      assert cache + map[] == cache;
      return Ok(cur);
    }

    /**
     * The public `GetValue(keyList)`: an exact cache hit is returned as cached;
     * otherwise the walk resumes from the longest cached proper prefix, or from
     * the root value.  Over a consistent cache the result is the value of the
     * path and the cache stays consistent.
     */
    method GetValue(heap: Heap, keyList: seq<string>) returns (r: Outcome<Value>)
      requires |keyList| >= 1
      modifies this`cache
      ensures Join(keyList) in old(cache) ==> r == Ok(old(cache)[Join(keyList)]) && cache == old(cache)
      ensures Join(keyList) !in old(cache) ==>
        match LongestCached(old(cache), keyList, |keyList| - 1)
        case Some(m) => r == WalkValue(heap, old(cache)[Join(keyList[..m])], Split(Join(keyList[m..])))
        case None => r == WalkValue(heap, Get(keyList[0]), keyList[1..])
      ensures Segments(keyList) && old(Consistent(data, heap, cache)) ==>
        r == Resolve(data, heap, keyList) && Consistent(data, heap, cache)
      ensures (r, cache) == Fetched(data, heap, old(cache), keyList)
    {
      var fullkey := Join(keyList);
      if fullkey in cache {
        r := Ok(cache[fullkey]);
      } else {
        r := ViaCache(heap, keyList);
      }
      if Segments(keyList) && old(Consistent(data, heap, cache)) {
        FetchedConsistent(data, heap, old(cache), keyList);
      }
    }

    /**
     * The part of `GetValue(keyList)` after a cache miss on the whole path: drop
     * the last segment until a cached prefix is found and resume there, else
     * walk from the root entry.
     */
    method ViaCache(heap: Heap, keyList: seq<string>) returns (r: Outcome<Value>)
      requires |keyList| >= 1 && Join(keyList) !in cache
      modifies this`cache
      ensures (r, cache) == Fetched(data, heap, old(cache), keyList)
    {
      var m, remainKey := CachedPrefix(keyList);
      FetchedCases(data, heap, cache, keyList);
      if m > 0 {
        r := WalkFromCached(heap, keyList, m, remainKey);
      } else {
        r := WalkFromRootValue(heap, keyList);
      }
    }

    /**
     * The search loop of `GetValue(keyList)`: drop the last segment of the path
     * until the rest is cached; `m` is the length of the longest cached proper
     * prefix (0 when there is none) and `remainKey` the dropped segments joined.
     */
    method CachedPrefix(keyList: seq<string>) returns (m: nat, remainKey: string)
      requires |keyList| >= 1
      ensures m < |keyList| && remainKey == Join(keyList[m..])
      ensures LongestCached(cache, keyList, |keyList| - 1) == if m == 0 then None else Some(m)
    {
      var n := |keyList|;
      m := n - 1;
      remainKey := keyList[n - 1];
      assert keyList[n - 1..] == [keyList[n - 1]];
      while m > 0 && Join(keyList[..m]) !in cache
        invariant 0 <= m <= n - 1
        invariant remainKey == Join(keyList[m..])
        invariant LongestCached(cache, keyList, n - 1) == LongestCached(cache, keyList, m)
      {
        assert LongestCached(cache, keyList, m) == LongestCached(cache, keyList, m - 1);
        JoinFrom(keyList, m);
        remainKey := keyList[m - 1] + [Delimiter] + remainKey;
        m := m - 1;
      }
    }

    /** `GetValue(dataName, keyList, Get(dataName))`: walk from the root value when no prefix is cached. */
    method WalkFromRootValue(heap: Heap, keyList: seq<string>) returns (r: Outcome<Value>)
      requires |keyList| >= 1
      modifies this`cache
      ensures r == WalkValue(heap, Get(keyList[0]), keyList[1..])
      ensures cache == old(cache) + WalkWrites(heap, keyList[0], Get(keyList[0]), keyList[1..])
      ensures Segments(keyList) && old(Consistent(data, heap, cache)) ==>
        r == Resolve(data, heap, keyList) && Consistent(data, heap, cache)
    {
      var dataName := keyList[0];
      ghost var writes := WalkWrites(heap, dataName, Get(dataName), keyList[1..]);
      ghost var consistent := Segments(keyList) && Consistent(data, heap, cache);
      r := Walk(heap, dataName, keyList[1..], Get(dataName));
      if consistent {
        assert keyList[..1] == [dataName];
        ResumeConsistent(data, heap, keyList, 1, Get(dataName), old(cache), writes);
      }
    }

    /** `GetValue(key, remainKey.Split('.'), _cache[key])`: resume the walk at the cached prefix `keyList[..m]`. */
    method WalkFromCached(heap: Heap, keyList: seq<string>, m: nat, remainKey: string) returns (r: Outcome<Value>)
      requires 1 <= m < |keyList| && remainKey == Join(keyList[m..]) && Join(keyList[..m]) in cache
      modifies this`cache
      ensures r == WalkValue(heap, old(cache)[Join(keyList[..m])], Split(Join(keyList[m..])))
      ensures cache == old(cache) + WalkWrites(heap, Join(keyList[..m]), old(cache)[Join(keyList[..m])], Split(Join(keyList[m..])))
      ensures Segments(keyList) && old(Consistent(data, heap, cache)) ==>
        r == Resolve(data, heap, keyList) && Consistent(data, heap, cache)
    {
      var key := Join(keyList[..m]);
      var split := Split(remainKey);
      var v := cache[key];
      ghost var writes := WalkWrites(heap, key, v, split);
      ghost var consistent := Segments(keyList) && Consistent(data, heap, cache);
      r := Walk(heap, key, split, v);
      if consistent {
        SegmentsSlice(keyList, m, |keyList|);
        SplitJoin(keyList[m..]);
        SegmentsSlice(keyList, 0, m);
        SplitJoin(keyList[..m]);
        ResumeConsistent(data, heap, keyList, m, v, old(cache), writes);
      }
    }

    /**
     * The public `SetValue(keyList, value)`: no path or no root value gives null;
     * otherwise the store below the root, which yields the root object itself, or
     * `value` when the path is the root name alone (nothing is stored then).
     */
    method SetValue(heap: Heap, keyList: seq<string>, value: Value) returns (r: Outcome<(Heap, Value)>)
      ensures keyList == [] || Get(keyList[0]) == Null ==> r == Ok((heap, Null))
      ensures keyList != [] && Get(keyList[0]) != Null ==> r == Store(heap, keyList[1..], Get(keyList[0]), value)
      ensures |keyList| == 1 && Get(keyList[0]) != Null ==> r == Ok((heap, value))
      ensures |keyList| >= 2 && r.Ok? && Get(keyList[0]) != Null ==> r.value.1 == Get(keyList[0])
      ensures |keyList| >= 2 && Storable(heap, keyList[1..], Get(keyList[0]), value) ==>
        r.Ok? && Resolve(data, r.value.0, keyList) == Ok(Landed(heap, keyList[1..], Get(keyList[0]), value))
    {
      if keyList == [] {
        return Ok((heap, Null));
      }
      var root := Get(keyList[0]);
      if root == Null {
        return Ok((heap, Null));
      }
      if |keyList| >= 2 && Storable(heap, keyList[1..], root, value) {
        StoreThenWalk(heap, keyList[1..], root, value);
      }
      r := Store(heap, keyList[1..], root, value);
    }

    /** `Register(key, binder)`, forwarded to the trie. */
    method Register(key: string, b: BinderId, live: set<BinderId>)
      requires Valid()
      modifies reference
      ensures Valid()
      ensures reference.nodes == old(reference.nodes) + Created(old(reference.nodes), Split(key), 1)
      ensures reference.BindersAt(Split(key)) == old(reference.BindersAt(Split(key))) * live + {b}
      ensures forall q :: q != Split(key) ==>
        reference.BindersAt(q) == if IsPrefix(Split(key), q) then old(reference.BindersAt(q)) * live
                                  else old(reference.BindersAt(q))
    {
      reference.Register(key, b, live);
    }

    /** `Unregister(binder)`, forwarded to the trie. */
    method Unregister(b: BinderId)
      requires Valid()
      modifies reference
      ensures Valid() && reference.nodes == old(reference.nodes)
      ensures forall q :: reference.BindersAt(q) == old(reference.BindersAt(q)) - {b}
    {
      reference.Unregister(b);
    }

    /**
     * `Notify(key, strict)`: clear the cache under `key`, then mark the binders of
     * the nodes the trie walk visits.  Returns the marked binders.
     */
    method Notify(key: string, strict: bool, live: set<BinderId>) returns (marked: set<BinderId>)
      modifies this`cache
      ensures forall k :: k in cache <==> k in old(cache) && !Evicted(k, key, strict)
      ensures forall k :: k in cache ==> cache[k] == old(cache)[k]
      ensures cache == Cleared(old(cache), key, strict)
      ensures forall b :: b in marked <==>
        b in live && exists q :: q in Visited(reference.nodes, key, strict) && b in reference.BindersAt(q)
    {
      ClearCache(key, strict);
      marked := reference.SetDirty(key, strict, live);
    }
  }
}
