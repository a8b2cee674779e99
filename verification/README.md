# uDataBinder runtime core in Dafny

uDataBinder is a Unity data-binding runtime. Application code stores values
under dotted keys (`user.name`, `items.3.price`) with `DataBinding.Set`,
either globally or on a game object. Binder components then read those values
by key, with `*` standing for the alias of the nearest `AliasGroup` above
them. They register the keys they read in a per-bucket dependency trie
(`DataReference`), and are queued for a rebuild by depth whenever a key they
depend on changes (`DataBinding.LateRebuild` / `Execute`). Two small
languages sit on top:

- boolean conditions (`ConditionBinding`): `a.b >= 3 && !flag`;
- text templates with `{key}` holes (`TemplateBinding`).

A `Repeater` shows one `RepeatItem` for each selected element of a list.
Elements are selected by filter condition, sort key, skip and limit.

This project models that core, one Dafny module per source file:

| module | file | source |
|---|---|---|
| `Text` | `text.dfy` | the .NET string operations the runtime relies on (`Split`, `Join`, `Replace`, prefix tests, integer text) |
| `Values` | `values.dfy` | boxed values, a heap of containers, `Convert.ChangeType` and `IComparable.CompareTo` |
| `Scene` | `scene.dfy` | the transform hierarchy; `TransformExtensions.GetComponentInParentIncludeInactive` |
| `References` | `data_reference.dfy` | `DataReference`, the dependency trie |
| `BindingReferences` | `data_binding_reference.dfy` | `DataBindingReference`, one bucket: roots, path cache, reflection walk and store |
| `Bindings` | `data_binding.dfy` | the static `DataBinding` facade: buckets by scope, lazy registration, key resolution, the rebuild queue and `Execute` |
| `Conditions` | `condition.dfy` | `ConditionParser` (lexer and recursive-descent parser) and `ConditionBinding` (parse cache and evaluation) |
| `ConditionPrecedence` | `condition_precedence.dfy` | operator precedence of `ConditionParser`, stated for whole printed conditions |
| `Templates` | `template.dfy` | `TemplateBinding.Parse` |
| `DataBinders` | `data_binder.dfy` | `DataBinder`: cached hierarchy level, initialise, release, re-validate |
| `AliasGroups` | `alias_group.dfy` | `AliasGroup` |
| `RepeatItems` | `repeat_item.dfy` | `RepeatItem` |
| `Repeaters` | `repeater.dfy` | `Repeater`: the index pipeline, `Count` and `RebuildAsync` |

Several Unity and .NET facilities are passed to the model as parameters:

- **Scene tree.** The Unity scene is a `Tree`: a parent map with a rank that
  decreases towards the roots, so every parent walk ends.
- **Objects.** A game object or binder is a `NodeId` or a `BinderId`. The
  `null` game object of the global bucket is the scope `None`.
- **Destroyed and inactive objects.** Unity's "destroyed object compares equal
  to null" is the set `live`. `activeSelf && enabled` is the set `active`.
- **Containers.** A referenced container lives in a `Heap`, so in-place
  stores and cached references behave as they do in .NET. An object records
  the declared type of each field, and a field with no recorded type is
  declared `object`. A store converts the value it writes back to the
  member's declared type, as `Convert.ChangeType` does. List items are not
  converted, and dictionary entries are converted to `object`.
- **Data access in conditions and templates.** A condition or template reads
  data through `Env.lookup`, the value `DataBinding.GetValue` would return.
  Its registrations and reads are recorded as a trace of `Event`s.
- **Rebuild side effects.** `Execute` does not call `Rebuild()`. Each rebuild
  is a `Run` record, and the binders it marks dirty are the parameter
  `dirties`.
- **Sort comparer.** The repeater's sort comparer is a rank function
  `order`.
- **New repeat items.** The repeater's `Instantiate` is the parameter
  `copies`, which gives each new item's binder and node.
- **Exceptions.** An exception that escapes is the `Fault` case of `Outcome`.

Stateful source objects are Dafny classes whose methods are proved against
specification functions. Examples:

- `ConditionParser.ParseOr` is proved equal to `ParsedOr`;
- `DataBindingReference.GetValue` is proved equal to `Fetched` (the result
  and the cache it leaves), and `FetchedConsistent` shows that this is the
  value of the path under `Resolve` whenever the cache is consistent;
- `Repeater.Indexes` is proved equal to `Listing`.

The properties the source relies on are lemmas about those functions.

## Model

All source paths are under `Assets/uDataBinder/Runtime/`.

| member | source | states |
|---|---|---|
| Text.Split | Assets/uDataBinder/Runtime/Binding/DataReference.cs:15 | `Split('.')` never returns an empty list. |
| Text.SplitHasNoDelimiter | Assets/uDataBinder/Runtime/Binding/DataReference.cs:15 | No segment of a split contains `.`. |
| Text.JoinSplit | Assets/uDataBinder/Runtime/Binding/DataBinding.cs:240-257 | Joining the segments of a split gives the original text back, so re-joining a key that has no alias leaves it unchanged. |
| Text.SplitJoin | Assets/uDataBinder/Runtime/Binding/DataBinding.cs:253-254 | Splitting the join of at least one `.`-free segment gives the segments back. |
| Text.NonEmpty | Assets/uDataBinder/Runtime/Binding/DataBinding.cs:268 | `Where(v => !IsNullOrEmpty(v))` keeps only non-empty segments, each one taken from the input, never more than there were, and keeps them `.`-free. |
| Text.NonEmptyAppend | Assets/uDataBinder/Runtime/Binding/DataBinding.cs:268 | Filtering keeps the input order: filtering two lists one after the other is filtering their concatenation. |
| Text.NonEmptyKeepsEvery | Assets/uDataBinder/Runtime/Binding/DataBinding.cs:268 | No non-empty segment is dropped. |
| Text.NonEmptyKeepsAll | Assets/uDataBinder/Runtime/Binding/DataBinding.cs:268 | A list of non-empty segments passes through unchanged. |
| Text.StartsWithIsIgnoreCase | Assets/uDataBinder/Runtime/Binding/DataReference.cs:79 | An ordinal prefix is also a prefix under `OrdinalIgnoreCase`. |
| Text.ReplaceCharAbsent | Assets/uDataBinder/Runtime/Repeater/Repeater.cs:78 | `Replace("*", …)` on a text without `*` returns the text unchanged. |
| Text.ReplaceCharRemoves | Assets/uDataBinder/Runtime/Repeater/Repeater.cs:78 | After `Replace` with a replacement that has no `*`, no `*` is left. |
| Text.Digits | Assets/uDataBinder/Runtime/Repeater/Repeater.cs:78 | The decimal text of a number is non-empty and made only of digits. |
| Text.DigitsRoundTrip | Assets/uDataBinder/Runtime/Repeater/Repeater.cs:78 | Reading back the decimal digits of a natural gives the natural. |
| Text.TrimStart | Assets/uDataBinder/Runtime/Binding/DataBindingReference.cs:112 | Trimming the front never lengthens a text and leaves it empty or starting with a non-blank character. |
| Text.TrimEnd | Assets/uDataBinder/Runtime/Binding/DataBindingReference.cs:112 | Trimming the back never lengthens a text and leaves it empty or ending with a non-blank character. |
| Text.TrimStartDropsBlanks | Assets/uDataBinder/Runtime/Binding/DataBindingReference.cs:112 | What `TrimStart` returns is a suffix of the text, and everything it removed is blank. |
| Text.TrimEndDropsBlanks | Assets/uDataBinder/Runtime/Binding/DataBindingReference.cs:112 | What `TrimEnd` returns is a prefix of the text, and everything it removed is blank. |
| Text.TrimPadded | Assets/uDataBinder/Runtime/Binding/DataBindingReference.cs:112 | White space added at either end of a text is trimmed away again. |
| Text.ParseInteger | Assets/uDataBinder/Runtime/Binding/ConditionBinding.cs:182 | `NumberStyles.Integer` parsing: only non-empty text parses as an integer; `IntToStringRoundTrip` is its inverse property and `ParseIntegerPadded` its tolerance of surrounding white space. |
| Text.ParseIntegerPadded | Assets/uDataBinder/Runtime/Binding/DataBindingReference.cs:112 | White space around an integer's text does not change the integer read, as `long.TryParse` and `int.Parse` allow it. |
| Text.IntToStringRoundTrip | Assets/uDataBinder/Runtime/Binding/ConditionBinding.cs:182 | `int.Parse(i.ToString()) == i` for every integer. |
| Values.CompareStrings | Assets/uDataBinder/Runtime/Binding/ConditionBinding.cs:322 | A string comparison is three-way, and 0 exactly when the strings are equal. |
| Values.CompareStringsAntisymmetric | Assets/uDataBinder/Runtime/Binding/ConditionBinding.cs:322 | Swapping two strings negates their comparison. |
| Values.CompareTo | Assets/uDataBinder/Runtime/Binding/ConditionBinding.cs:320-322 | `IComparable.CompareTo` against null or a value of the same type is -1, 0 or 1. |
| Values.CompareToAntisymmetric | Assets/uDataBinder/Runtime/Binding/ConditionBinding.cs:322 | Swapping two same-typed comparable operands negates the comparison. |
| Values.ParseBool | Assets/uDataBinder/Runtime/Binding/DataBinding.cs:295 | `bool.Parse`: a text converts to `b` exactly when, with white space and NUL characters trimmed from both ends, it spells `b`'s name in some letter case; any other text is rejected. |
| Values.BoolTextRoundTrip | Assets/uDataBinder/Runtime/Binding/DataBinding.cs:295 | A bool printed and parsed back is unchanged. |
| Values.ParseDecimal | Assets/uDataBinder/Runtime/Binding/ConditionBinding.cs:181 | `double.Parse` of trimmed text with an optional sign and digits with at most one `.` yields a double. |
| Values.ParseDecimalPadded | Assets/uDataBinder/Runtime/Binding/ConditionBinding.cs:181 | White space around a number's text does not change the double read. |
| Values.IntegerTextParsesAsDecimal | Assets/uDataBinder/Runtime/Binding/DataBinding.cs:295-298 | An integer's decimal text parses as the double of that integer (no `.` needed). |
| Values.ChangeType | Assets/uDataBinder/Runtime/Binding/ConditionBinding.cs:311 | A successful `Convert.ChangeType` yields null, a value of the target type, or, for the target `object`, the value itself. Null comes only from null, and only for a reference target type. |
| Values.ObjectTarget | Assets/uDataBinder/Runtime/Binding/DataBindingReference.cs:305-310 | Converting to `object` (the type of a `Dictionary<string, object>` entry) returns null and every scalar unchanged and raises `InvalidCastException` for every container, since containers are not `IConvertible`. |
| Values.IntegerTextIsADouble | Assets/uDataBinder/Runtime/Binding/DataBinding.cs:295-298 | An integer's text converts to the `double` of that integer. |
| Values.PaddedTextConverts | Assets/uDataBinder/Runtime/Binding/DataBinding.cs:295-298 | White space around a text does not change what it converts to as a `bool`, `int` or `double`. |
| Values.CharCodeRoundTrip | Assets/uDataBinder/Runtime/Binding/ConditionBinding.cs:311 | A `char` converts to its code point as an `int`, and that code point converts back to the same `char`. |
| Values.IntStringRoundTrip | Assets/uDataBinder/Runtime/Binding/ConditionBinding.cs:311 | An Int32 converted to string and back to Int32 is unchanged, in both directions. |
| Values.BoolStringRoundTrip | Assets/uDataBinder/Runtime/Binding/DataBinding.cs:295 | A bool converted to its text and back is unchanged. |
| Values.NoConversionToContainers | Assets/uDataBinder/Runtime/Binding/DataBindingReference.cs:244 | Only null or a container of exactly that kind converts to a container type. |
| Scene.Chain | Assets/uDataBinder/Runtime/Utils/TransformExtensions.cs:9-16 | The parent walk starts at the node itself. |
| Scene.ChainDescends | Assets/uDataBinder/Runtime/Utils/TransformExtensions.cs:9-16 | Ranks strictly decrease along the walk, so it never revisits a node and always ends. |
| Scene.ChainEndsAtRoot | Assets/uDataBinder/Runtime/Utils/TransformExtensions.cs:9-17 | The walk ends at a root, where `transform.parent` is null. |
| Scene.NearestIsFirstOnChain | Assets/uDataBinder/Runtime/Utils/TransformExtensions.cs:7-17 | The component search returns the start node when it holds the component, otherwise the first holder on the walk, and nothing exactly when no node on the walk holds one. |
| Scene.NearestRank | Assets/uDataBinder/Runtime/Utils/TransformExtensions.cs:7-17 | The node found holds the component and is the start node or above it. |
| Scene.GetComponentInParentIncludeInactive | Assets/uDataBinder/Runtime/Utils/TransformExtensions.cs:7-17 | The loop returns the first holder on the parent walk. |
| References.ChildNamesAreChildren | Assets/uDataBinder/Runtime/Binding/DataReference.cs:10 | The `_children` keys of a node are exactly the names of the nodes one segment below it. |
| References.ChildNamesDistinct | Assets/uDataBinder/Runtime/Binding/DataReference.cs:10 | A node's children have distinct names. |
| References.SubtreeIsDescendants | Assets/uDataBinder/Runtime/Binding/DataReference.cs:56-63 | `Apply` with an empty queue visits exactly the node and all its descendants. |
| References.KidsAreDescendants | Assets/uDataBinder/Runtime/Binding/DataReference.cs:59-62 | The walk over a list of children visits exactly the descendants that lie below one of those children. |
| References.StrictVisitsExactSubtree | Assets/uDataBinder/Runtime/Binding/DataReference.cs:64-74 | A strict `Apply` along a path visits the subtree of the node at the end of the path when that node exists, and nothing otherwise. |
| References.StrictVisitsDescendants | Assets/uDataBinder/Runtime/Binding/DataReference.cs:88-102 | Strict `SetDirty(key)` visits precisely the nodes at or below the node of `key`. |
| References.Matching | Assets/uDataBinder/Runtime/Binding/DataReference.cs:77-79 | The children a loose step enters are exactly those whose name starts with the key, ignoring case. |
| References.LastKeyMarksMatchingSubtrees | Assets/uDataBinder/Runtime/Binding/DataReference.cs:75-83 | A loose step on the last key visits, in order, the whole subtree of every matching child. |
| References.OneKeyLooseMarksPrefixedSubtrees | Assets/uDataBinder/Runtime/Binding/DataReference.cs:75-83 | Loose marking with a one-segment key visits the subtrees of all children prefixed by the key. |
| References.OnlyExactKidMatches | Assets/uDataBinder/Runtime/Binding/DataReference.cs:75-83 | When only the exact child matches, a loose step is the walk into that child, or nothing when the child is absent. |
| References.UnambiguousLooseIsStrict | Assets/uDataBinder/Runtime/Binding/DataReference.cs:54-86 | Where no sibling along the path prefix-matches the key being followed, loose marking visits exactly what strict marking does. |
| References.SharedQueueCanMissExactPath | Assets/uDataBinder/Runtime/Binding/DataReference.cs:77-83 | With `ax` created before `a`, loose marking of `a.b.c` visits nothing although `a.b.c` is a node: the sibling walks consume a single shared queue. |
| References.DataReference.constructor | Assets/uDataBinder/Runtime/Binding/DataReference.cs:9-10 | A new trie has only its root and no binders. |
| References.DataReference.Find | Assets/uDataBinder/Runtime/Binding/DataReference.cs:12-26 | `Find` returns the node of the split key. It appends exactly the missing prefixes, in path order, and leaves the trie with no gaps. |
| References.DataReference.CleanAll | Assets/uDataBinder/Runtime/Binding/DataReference.cs:28-36 | `CleanAll` drops destroyed binders from every node at or below the node and changes nothing elsewhere. |
| References.DataReference.Register | Assets/uDataBinder/Runtime/Binding/DataReference.cs:38-43 | `Register` creates the key's missing nodes, cleans the subtree below the key and adds the binder at the key; other nodes are unchanged. |
| References.DataReference.Unregister | Assets/uDataBinder/Runtime/Binding/DataReference.cs:45-52 | `Unregister` removes the binder from every node and nothing else. |
| References.DataReference.SetDirty | Assets/uDataBinder/Runtime/Binding/DataReference.cs:88-102 | The binders marked dirty are exactly the live binders of the nodes `Apply` visits. |
| BindingReferences.IndexOf | Assets/uDataBinder/Runtime/Binding/DataBindingReference.cs:112 | `long.TryParse` accepts exactly the `NumberStyles.Integer` texts (optionally signed digits, white space allowed around them) whose value is in the Int64 range, and yields that value. |
| BindingReferences.ToInt32 | Assets/uDataBinder/Runtime/Binding/DataBindingReference.cs:119 | The unchecked `(int)` cast lands in the Int32 range and leaves in-range values unchanged. |
| BindingReferences.WalkValueAppend | Assets/uDataBinder/Runtime/Binding/DataBindingReference.cs:100-210 | Walking `a + b` is walking `a`, then walking `b` from where that ended. |
| BindingReferences.WalkWritesConsistent | Assets/uDataBinder/Runtime/Binding/DataBindingReference.cs:110-120 | Every cache entry a walk writes is keyed by a path whose value is the entry. |
| BindingReferences.StrictEvictsLess | Assets/uDataBinder/Runtime/Binding/DataBindingReference.cs:73-92 | Strict eviction drops a subset of what loose eviction drops. |
| BindingReferences.SplitHeadIsPrefix | Assets/uDataBinder/Runtime/Binding/DataBindingReference.cs:87 | A key starts with its own first segment. |
| BindingReferences.SetThenClearKeepsConsistent | Assets/uDataBinder/Runtime/Binding/DataBinding.cs:31-51 | After `Set(key)` and the loose eviction of `key`, every remaining cache entry still holds the current value of its path. |
| BindingReferences.SlotIsMember | Assets/uDataBinder/Runtime/Binding/DataBindingReference.cs:212-318 | A writable slot is also a member the walk reads. |
| BindingReferences.Put | Assets/uDataBinder/Runtime/Binding/DataBindingReference.cs:244-310 | Writing a slot never changes a container's shape (its kind, list length, field or key set). |
| BindingReferences.SameShapeConverts | Assets/uDataBinder/Runtime/Binding/DataBindingReference.cs:281 | Heaps of the same shape give every value the same run-time type and the same conversions. |
| BindingReferences.Assigned | Assets/uDataBinder/Runtime/Binding/DataBindingReference.cs:225-310 | A list item is assigned as it is; a dictionary entry accepts exactly the non-containers, unchanged; a field receives null, a value of its declared type, or, when declared `object`, the value itself. |
| BindingReferences.AssignedSameShape | Assets/uDataBinder/Runtime/Binding/DataBindingReference.cs:281 | The write-back conversion does not depend on member values, only on shapes. |
| BindingReferences.Store | Assets/uDataBinder/Runtime/Binding/DataBindingReference.cs:212-318 | With no keys the store yields the value; otherwise it yields the data itself. A successful store keeps every container's shape. |
| BindingReferences.StoreInto | Assets/uDataBinder/Runtime/Binding/DataBindingReference.cs:225-311 | A store into a container yields that container and keeps every shape. It succeeds exactly when the nested store does and the value it yields converts to the member's declared type (`Convert.ChangeType`). |
| BindingReferences.WalkFrame | Assets/uDataBinder/Runtime/Binding/DataBindingReference.cs:100-210 | A walk depends only on the containers it reaches. |
| BindingReferences.Landed | Assets/uDataBinder/Runtime/Binding/DataBindingReference.cs:281 | What a store leaves in its last slot is the value itself or a `Convert.ChangeType` of it. |
| BindingReferences.StoreThenWalk | Assets/uDataBinder/Runtime/Binding/DataBindingReference.cs:212-318 | A store along a storable path (every write-back converts) succeeds. Walking the path afterwards reads the stored value as the last slot's declared type converted it (`Landed`). Only containers on the path change. |
| BindingReferences.StoreLast | Assets/uDataBinder/Runtime/Binding/DataBindingReference.cs:261-282 | The last step of a store puts the converted value in its slot and changes only that container. |
| BindingReferences.StoreThrough | Assets/uDataBinder/Runtime/Binding/DataBindingReference.cs:261-282 | An inner step of a store writes the nested container back into the member it was read from, unchanged. |
| BindingReferences.NestedDictStoreRaises | Assets/uDataBinder/Runtime/Binding/DataBindingReference.cs:298-311 | A nested store through a dictionary entry that holds a container raises: the container written back does not convert to `object`. |
| BindingReferences.DictEntryStep | Assets/uDataBinder/Runtime/Binding/DataBindingReference.cs:298-311 | A store step into a dictionary raises on the `Count` and `Item` properties and otherwise goes through the entry's indexer. |
| BindingReferences.DictEntryStore | Assets/uDataBinder/Runtime/Binding/DataBindingReference.cs:298-311 | Storing a container into a dictionary entry raises; storing a scalar or null assigns it unchanged. |
| BindingReferences.FieldStoreConverts | Assets/uDataBinder/Runtime/Binding/DataBindingReference.cs:261-282 | Storing into a typed field assigns the value converted to the field's type, and raises when the conversion raises. |
| BindingReferences.IntFieldParsesText | Assets/uDataBinder/Runtime/Binding/DataBindingReference.cs:281 | Storing the text "5" into an `int` field stores the integer 5. |
| BindingReferences.LongestCached | Assets/uDataBinder/Runtime/Binding/DataBindingReference.cs:330-344 | The cached-prefix search finds the longest cached proper prefix of the path, or reports that none is cached. |
| BindingReferences.DataBindingReference.constructor | Assets/uDataBinder/Runtime/Binding/DataBindingReference.cs:13-16 | A new bucket has no data, no cache and an empty trie. |
| BindingReferences.DataBindingReference.Set | Assets/uDataBinder/Runtime/Binding/DataBindingReference.cs:23-26 | After `Set`, the key exists and reads the value; every other key is unchanged. |
| BindingReferences.DataBindingReference.Remove | Assets/uDataBinder/Runtime/Binding/DataBindingReference.cs:38-41 | After `Remove`, the key is gone and reads null; every other key is unchanged. |
| BindingReferences.DataBindingReference.Release | Assets/uDataBinder/Runtime/Binding/DataBindingReference.cs:48-62 | `Release` empties both the data and the cache. |
| BindingReferences.DataBindingReference.ClearCache | Assets/uDataBinder/Runtime/Binding/DataBindingReference.cs:64-98 | `ClearCache` removes exactly the evicted entries: all of them for an empty key, the key and its dotted descendants when strict, every entry starting with the key when loose. Kept entries are unchanged, so the new cache is exactly `Cleared`. |
| BindingReferences.Cleared | Assets/uDataBinder/Runtime/Binding/DataBindingReference.cs:64-98 | The cache left by a clear: exactly the entries not evicted, each with its old value; an empty cache stays empty. |
| BindingReferences.DataBindingReference.Walk | Assets/uDataBinder/Runtime/Binding/DataBindingReference.cs:100-210 | The walk returns the value at the end of the path and caches every member it reads, keyed by its path. |
| BindingReferences.DataBindingReference.GetValue | Assets/uDataBinder/Runtime/Binding/DataBindingReference.cs:320-352 | `GetValue` returns exactly `Fetched` and leaves exactly its cache. A direct hit is answered as cached, with the cache unchanged. Otherwise it resumes from the longest cached prefix, or else walks from the root. Over a consistent cache the result is the path's value and the cache stays consistent. |
| BindingReferences.DataBindingReference.ViaCache | Assets/uDataBinder/Runtime/Binding/DataBindingReference.cs:329-351 | After a miss on the whole path, the result and the new cache are exactly `Fetched`. |
| BindingReferences.DataBindingReference.CachedPrefix | Assets/uDataBinder/Runtime/Binding/DataBindingReference.cs:329-345 | The search loop stops at the longest cached proper prefix (`LongestCached`), or reports that there is none. The dropped segments, joined, are the remainder. |
| BindingReferences.Fetched | Assets/uDataBinder/Runtime/Binding/DataBindingReference.cs:320-352 | What `GetValue` returns and the cache it leaves. A hit keeps the cache as it is. In every case the cache keeps all its keys. |
| BindingReferences.FetchedConsistent | Assets/uDataBinder/Runtime/Binding/DataBindingReference.cs:320-352 | Over a consistent cache, with segments that hold no delimiter, the fetch gives the path's value under `Resolve` and leaves the cache consistent. |
| BindingReferences.DataBindingReference.WalkFromRootValue | Assets/uDataBinder/Runtime/Binding/DataBindingReference.cs:346-351 | The walk from the root entry gives the walk's value. The cache becomes the old cache plus exactly the entries that walk writes. Over a consistent cache this is the path's value, and the cache stays consistent. |
| BindingReferences.DataBindingReference.WalkFromCached | Assets/uDataBinder/Runtime/Binding/DataBindingReference.cs:337-340 | Resuming from a cached prefix walks the re-split remainder from the cached value. The cache becomes the old cache plus exactly the entries that walk writes. Over a consistent cache the result is the path's value. |
| BindingReferences.ResumeConsistent | Assets/uDataBinder/Runtime/Binding/DataBindingReference.cs:337-340 | Walking on from a correctly cached prefix gives the value of the whole path and keeps the cache consistent. |
| BindingReferences.DataBindingReference.SetValue | Assets/uDataBinder/Runtime/Binding/DataBindingReference.cs:354-372 | With no keys or a null root, `SetValue` returns null and stores nothing. Otherwise it stores below the root. Along a storable path, the path then reads the new value as the last slot converted it. |
| BindingReferences.DataBindingReference.Register | Assets/uDataBinder/Runtime/Binding/DataBindingReference.cs:374-377 | The bucket's trie gains the binder at the key, as `DataReference.Register` specifies. |
| BindingReferences.DataBindingReference.Unregister | Assets/uDataBinder/Runtime/Binding/DataBindingReference.cs:379-382 | The binder leaves every trie node; the nodes stay. |
| BindingReferences.DataBindingReference.Notify | Assets/uDataBinder/Runtime/Binding/DataBindingReference.cs:384-388 | `Notify` evicts the entries the key invalidates and marks exactly the live binders on the nodes the walk visits. |
| Bindings.StarIndex | Assets/uDataBinder/Runtime/Binding/DataBinding.cs:241-244 | The position of the first `*` segment, or the length when there is none. |
| Bindings.UsableGroup | Assets/uDataBinder/Runtime/Binding/DataBinding.cs:246-250 | The alias group used is one that has a parent strictly above the scope, so resolution moves up the tree. |
| Bindings.ResolveKey | Assets/uDataBinder/Runtime/Binding/DataBinding.cs:233-258 | The recursive `ResolveKey` computes the key resolution function `ResolvedKey`. |
| Bindings.ResolveKeyIdentity | Assets/uDataBinder/Runtime/Binding/DataBinding.cs:235-257 | With no scope, no `*` segment or no usable alias group, the key is returned unchanged. |
| Bindings.ResolveKeyOneStep | Assets/uDataBinder/Runtime/Binding/DataBinding.cs:252-254 | When the group's alias has no `*` and none follows the first one, resolution is the alias followed by the segments after the `*`. |
| Bindings.HoldersOfMember | Assets/uDataBinder/Runtime/Binding/DataBinding.cs:62-65 | A node holds a key when it has a bucket whose data contains the key's root name. |
| Bindings.LocatedIn | Assets/uDataBinder/Runtime/Binding/DataBinding.cs:54-83 | The bucket `Find` returns contains the key's root name. |
| Bindings.LocatedIsNearestHolder | Assets/uDataBinder/Runtime/Binding/DataBinding.cs:54-83 | `Find` returns the nearest holder on the parent walk. Failing that, it returns the global bucket when that holds the root name, and nothing exactly when neither does. |
| Bindings.LocatedAtOwnScope | Assets/uDataBinder/Runtime/Binding/DataBinding.cs:59-68 | A key stored in the scope's own bucket is found there. |
| Bindings.Stored | Assets/uDataBinder/Runtime/Binding/DataBinding.cs:24-31 | After `Set`, the scope's bucket exists and holds the value under the key. |
| Bindings.StoredAfterAdd | Assets/uDataBinder/Runtime/Binding/DataBinding.cs:26-31 | Creating the scope's bucket when missing, then storing, gives the same roots as `Stored`. |
| Bindings.Released | Assets/uDataBinder/Runtime/Binding/DataBinding.cs:219-228 | Releasing the scene buckets keeps every bucket. |
| Bindings.ReleaseStep | Assets/uDataBinder/Runtime/Binding/DataBinding.cs:221-228 | Releasing one more scene bucket empties exactly that bucket. |
| Bindings.KeyList | Assets/uDataBinder/Runtime/Binding/DataBinding.cs:268 | The resolved key's segments are non-empty, `.`-free and taken from the split key. When no segment of the split is empty, the list is exactly the split and joins back to the resolved key. |
| Bindings.StarNameResolves | Assets/uDataBinder/Runtime/Binding/DataBinding.cs:233-258 | Under a group aliased `items.3`, the key `*.name` resolves to `items.3.name`. |
| Bindings.StarNameEvictsNothing | Assets/uDataBinder/Runtime/Binding/DataBindingReference.cs:85-91 | A loose eviction of `*.name` does not drop the cached `items.3.name`. |
| Bindings.GlobalItemsLocation | Assets/uDataBinder/Runtime/Binding/DataBinding.cs:54-83 | With `items` stored globally, the resolved path is found in the global bucket and `*.name` is found nowhere. |
| Bindings.AliasedSetValueMissesItsPath | Assets/uDataBinder/Runtime/Binding/DataBinding.cs:344 | The source's `SetValue("*.name")` stores at `items.3.name`, then notifies the unresolved `*.name`: no bucket is found, the stale cache entry survives and nothing is marked. |
| Bindings.DefaultOf | Assets/uDataBinder/Runtime/Binding/DataBinding.cs:302-306 | `default(T)` of a value type is a value of that type. |
| Bindings.ConvertOrDefault | Assets/uDataBinder/Runtime/Binding/DataBinding.cs:288-308 | `GetValue<T>` for a value type yields a `T`. It is the converted value when conversion succeeds and `default` on a format or cast error; only an overflow escapes. |
| Bindings.CastAs | Assets/uDataBinder/Runtime/Binding/DataBinding.cs:310-314 | `as T` yields null or a `T`, and leaves a `T` unchanged. |
| Bindings.StoredInReadsBack | Assets/uDataBinder/Runtime/Binding/DataBinding.cs:316-346 | `SetValue` along a storable path reports success, and the path then reads the new value as the last slot converted it. |
| Bindings.StoredInRootOnly | Assets/uDataBinder/Runtime/Binding/DataBinding.cs:338-342 | A one-segment `SetValue` on a non-null root changes nothing and succeeds exactly when the value is not null. |
| Bindings.KeyListHead | Assets/uDataBinder/Runtime/Binding/DataBinding.cs:275-276 | The bucket search on the re-joined key uses the key's first segment. |
| Bindings.DirtiedByAppend | Assets/uDataBinder/Runtime/Binding/DataBinding.cs:168-195 | The binders marked dirty by two runs of rebuilds are those marked by either one. |
| Bindings.WaveKeepsWellFormed | Assets/uDataBinder/Runtime/Binding/DataBinding.cs:162-196 | After one more wave, the rebuilds are still in wave and depth order, distinct, eligible and not completed before. |
| Bindings.WaveKeepsFromQueue | Assets/uDataBinder/Runtime/Binding/DataBinding.cs:162-196 | Each rebuild of a wave came from the queue as `Execute` found it, or was marked dirty in the previous wave. |
| Bindings.WaveKeepsPending | Assets/uDataBinder/Runtime/Binding/DataBinding.cs:164-166 | The next wave's queue holds exactly what this wave marked dirty, each binder at its depth. |
| Bindings.WaveKeepsNoneForgotten | Assets/uDataBinder/Runtime/Binding/DataBinding.cs:162-196 | No eligible binder that was queued or marked dirty is lost: it has run, was completed before, or is still queued. |
| Bindings.WaveStaysInUniverse | Assets/uDataBinder/Runtime/Binding/DataBinding.cs:162-196 | The queue never holds a binder outside the finite universe of binders. |
| Bindings.WaveStep | Assets/uDataBinder/Runtime/Binding/DataBinding.cs:162-196 | One wave keeps the `Execute` invariant, and a wave that runs anything completes a new binder, so `Execute` ends. |
| Bindings.DrainedAll | Assets/uDataBinder/Runtime/Binding/DataBinding.cs:162-196 | When the queue is empty, every queued or dirtied eligible binder has been rebuilt exactly once, in order. |
| Bindings.DepthStep | Assets/uDataBinder/Runtime/Binding/DataBinding.cs:168-195 | Handling the shallowest remaining depth bucket keeps the invariant of a wave. |
| Bindings.DataBinding.constructor | Assets/uDataBinder/Runtime/Binding/DataBinding.cs:13-17 | The runtime starts with no buckets, nothing parked and an empty queue. |
| Bindings.DataBinding.Find | Assets/uDataBinder/Runtime/Binding/DataBinding.cs:54-83 | The loop finds the bucket `LocatedIn` specifies, and that bucket holds the key's root name. |
| Bindings.DataBinding.Get | Assets/uDataBinder/Runtime/Binding/DataBinding.cs:90-98 | `Get` returns null when no bucket holds the key, else the value stored under it. |
| Bindings.DataBinding.Exist | Assets/uDataBinder/Runtime/Binding/DataBinding.cs:85-88 | The key exists exactly when the global bucket or a bucket on the parent walk holds its root name. |
| Bindings.DataBinding.Unset | Assets/uDataBinder/Runtime/Binding/DataBinding.cs:100-108 | `Unset` removes the key from the bucket `Find` returns; when none is found, nothing changes. |
| Bindings.DataBinding.Drop | Assets/uDataBinder/Runtime/Binding/DataBinding.cs:107 | `Remove(key)` on the found bucket: only that bucket loses the key, and it no longer exists there. |
| Bindings.DataBinding.Set | Assets/uDataBinder/Runtime/Binding/DataBinding.cs:24-52 | `Set` stores the value in the scope's bucket, creating the bucket if needed, and flushes and attaches every parked registration under a prefixed key. No live registration in a pre-existing bucket is lost. Every binder now registered was registered before, or is a flushed entry that `Joining` puts at exactly that trie node. The located bucket's cache loses exactly the entries the key invalidates and keeps the rest; a bucket created by this call has an empty cache. Every other bucket's cache is unchanged. Exactly the marked binders are queued. |
| Bindings.DataBinding.Commit | Assets/uDataBinder/Runtime/Binding/DataBinding.cs:24-49 | The store and lazy-flush half of `Set`. It has the same lower and upper bounds on the registrations as `Set`. Buckets it creates are fresh, with empty caches, and no existing cache changes. |
| Bindings.DataBinding.Put | Assets/uDataBinder/Runtime/Binding/DataBinding.cs:26-31 | The value is stored in the scope's bucket, which is created if missing. A created bucket is fresh, with an empty cache. No scope loses its bucket, and every registration is unchanged. |
| Bindings.DataBinding.BucketFor | Assets/uDataBinder/Runtime/Binding/DataBinding.cs:26-29 | The scope's bucket: the existing one when there is one, else a fresh bucket with an empty cache and an empty root map. No other scope's bucket changes, and every registration is unchanged. |
| Bindings.DataBinding.Store | Assets/uDataBinder/Runtime/Binding/DataBinding.cs:31 | The bucket's `Set(key, value)`: only that scope's data changes, at that key. Every registration is unchanged. |
| Bindings.DataBinding.AddBucket | Assets/uDataBinder/Runtime/Binding/DataBinding.cs:26-29 | A new, empty bucket is added for the scope: empty cache, empty roots, and a fresh trie with no binders. No other bucket changes. |
| Bindings.DataBinding.Register | Assets/uDataBinder/Runtime/Binding/DataBinding.cs:110-130 | A destroyed binder or an empty key changes nothing. Otherwise the resolved key is parked when no bucket holds it, or else registered in the trie of the bucket found. Every other trie is unchanged. A registered binder is at its resolved path, no live binder is lost, and nothing else is added (`Joining`). |
| Bindings.RegisterBound | Assets/uDataBinder/Runtime/Binding/DataBinding.cs:110-130 | Registering one entry adds at most that entry's binder, and only at its `Spot`. It keeps every live binder, and the binder is present at its own path. |
| Bindings.DataBinding.Lodge | Assets/uDataBinder/Runtime/Binding/DataBinding.cs:118-129 | The find-then-park-or-register half of `Register`. |
| Bindings.DataBinding.Place | Assets/uDataBinder/Runtime/Binding/DataBinding.cs:119-129 | With no bucket found the registration is parked; otherwise only the found bucket's trie gains the binder. |
| Bindings.DataBinding.Park | Assets/uDataBinder/Runtime/Binding/DataBinding.cs:121-125 | The registration is appended to the list parked under its key. |
| Bindings.DataBinding.Attach | Assets/uDataBinder/Runtime/Binding/DataBinding.cs:129 | Only the found bucket's trie gains the binder. |
| Bindings.DataBinding.Reattach | Assets/uDataBinder/Runtime/Binding/DataBinding.cs:40 | Re-registering a flushed parked entry attaches it to the bucket it now finds. No live binder is lost from any trie, and nothing is added except that entry at its `Spot`. |
| Bindings.DataBinding.FlushLazy | Assets/uDataBinder/Runtime/Binding/DataBinding.cs:33-49 | Every entry parked under a key starting with the stored key gets attached, and exactly those keys leave the parked map. No live registration is lost, and only `Due` entries are added, each at its `Spot`. |
| Bindings.DataBinding.FlushAll | Assets/uDataBinder/Runtime/Binding/DataBinding.cs:34-44 | Every entry parked under a key starting with the stored key ends up attached. No live registration is lost, and only `Due` entries are added, each at its `Spot`. |
| Bindings.DataBinding.FlushOne | Assets/uDataBinder/Runtime/Binding/DataBinding.cs:38-42 | All entries parked under one key are attached, adding that key to those already flushed. Only those entries are added, each at its `Spot`. |
| Bindings.DataBinding.Reregister | Assets/uDataBinder/Runtime/Binding/DataBinding.cs:38-41 | Each entry of a parked list is attached, in order. No live binder is lost, and only those entries are added, each at its `Spot`. |
| Bindings.DataBinding.ReattachAt | Assets/uDataBinder/Runtime/Binding/DataBinding.cs:40 | One more entry of the parked list is attached, extending the attached prefix. Only entries of that list are added, each at its `Spot`. |
| Bindings.DataBinding.DropFlushed | Assets/uDataBinder/Runtime/Binding/DataBinding.cs:46-49 | Exactly the keys starting with the stored key leave the parked map. |
| Bindings.DataBinding.Unregister | Assets/uDataBinder/Runtime/Binding/DataBinding.cs:132-138 | The binder leaves every node of every bucket's trie. |
| Bindings.DataBinding.UnregisterAt | Assets/uDataBinder/Runtime/Binding/DataBinding.cs:136 | One bucket's trie loses the binder; other buckets are unchanged. |
| Bindings.DataBinding.Release | Assets/uDataBinder/Runtime/Binding/DataBinding.cs:219-231 | Scene buckets lose their data and cache; the global bucket keeps its data and cache; the completed set is emptied. |
| Bindings.DataBinding.ReleaseBuckets | Assets/uDataBinder/Runtime/Binding/DataBinding.cs:221-228 | Every scene bucket loses its data and cache; the global bucket is left alone. |
| Bindings.DataBinding.ReleaseNext | Assets/uDataBinder/Runtime/Binding/DataBinding.cs:221-228 | Releasing one more pending scene bucket keeps the loop invariant. |
| Bindings.DataBinding.ReleaseAt | Assets/uDataBinder/Runtime/Binding/DataBinding.cs:227 | One bucket is emptied, data and cache; the other caches are unchanged. |
| Bindings.DataBinding.Notify | Assets/uDataBinder/Runtime/Binding/DataBinding.cs:207-217 | With no bucket found, nothing happens. Otherwise that bucket's cache becomes exactly `Cleared`: the invalidated entries leave and the others keep their values. Every other bucket's cache, and every registration, is unchanged. Exactly its marked live binders are queued. |
| Bindings.DataBinding.NotifyAt | Assets/uDataBinder/Runtime/Binding/DataBinding.cs:216 | On the found bucket the cache becomes exactly `Cleared`, and every other scope's cache is unchanged. Exactly the marked live binders are queued. |
| Bindings.DataBinding.GetValue | Assets/uDataBinder/Runtime/Binding/DataBinding.cs:260-283 | An empty or unresolvable key, or one no bucket holds, yields null. Otherwise the result, and the target bucket's new cache, are exactly the bucket's `Fetched` of the key list. That is the value of the resolved path whenever the cache was consistent, and the cached, possibly stale, value otherwise. Every other bucket's cache is unchanged. |
| Bindings.DataBinding.Target | Assets/uDataBinder/Runtime/Binding/DataBinding.cs:262-277 | A bucket is read only for a non-empty key with a non-empty key list, and it is one of the runtime's buckets. |
| Bindings.DataBinding.GetValueAs | Assets/uDataBinder/Runtime/Binding/DataBinding.cs:288-308 | `GetValue<T>` for a value type converts the value fetched, or the key text itself when that is null, and falls back to `default`. The result is stated exactly in terms of the fetch. The target bucket's cache is the fetch's cache; every other cache is unchanged. |
| Bindings.DataBinding.GetValueAsClass | Assets/uDataBinder/Runtime/Binding/DataBinding.cs:310-314 | `GetValue<T>` for a reference type is the value fetched, cast with `as`, stated exactly in terms of the fetch. The target bucket's cache is the fetch's cache; every other cache is unchanged. |
| Bindings.DataBinding.Write | Assets/uDataBinder/Runtime/Binding/DataBinding.cs:316-342 | The store half of `SetValue`: false when no bucket is found, else the bucket's store along the resolved path. |
| Bindings.DataBinding.WriteAt | Assets/uDataBinder/Runtime/Binding/DataBinding.cs:339 | The bucket's store along the key list, reporting whether the stored value was non-null. |
| Bindings.DataBinding.SetValue | Assets/uDataBinder/Runtime/Binding/DataBinding.cs:316-346 | As written: after a successful store, `SetValue` notifies the key as given rather than the resolved path. |
| Bindings.DataBinding.SetValueNotifyingPath | Assets/uDataBinder/Runtime/Binding/DataBinding.cs:316-346 | Corrected `SetValue`: after a successful store, the resolved path's bucket evicts the path's cache entries, and exactly the binders of that path are marked and queued. |
| Bindings.DataBinding.LateRebuild | Assets/uDataBinder/Runtime/Binding/DataBinding.cs:140-156 | The binder is queued at its level, the queue becomes non-empty, and a forced call takes the binder out of the completed set. |
| Bindings.DataBinding.MarkDirty | Assets/uDataBinder/Runtime/Binding/DataReference.cs:93-100 | Each marked binder is queued at its level, and only those. |
| Bindings.DataBinding.RunDepth | Assets/uDataBinder/Runtime/Binding/DataBinding.cs:171-192 | One depth bucket rebuilds exactly its eligible, not yet completed binders, once each. What they mark dirty lands in the next queue. |
| Bindings.DataBinding.RunWave | Assets/uDataBinder/Runtime/Binding/DataBinding.cs:164-195 | One pass over the swapped-out queue runs depth buckets in ascending order and misses no eligible binder. |
| Bindings.DataBinding.DrainWave | Assets/uDataBinder/Runtime/Binding/DataBinding.cs:162-196 | One turn of the `while` keeps the invariant and shrinks the set of binders not yet completed, or empties the queue. |
| Bindings.DataBinding.Execute | Assets/uDataBinder/Runtime/Binding/DataBinding.cs:158-205 | `Execute` ends with an empty queue and an empty completed set. The rebuilds run in wave and depth order, each binder at most once, each eligible, each queued before the call or dirtied by the previous wave, and no eligible queued or dirtied binder is missed. |
| Conditions.SkipSpaces | Assets/uDataBinder/Runtime/Binding/ConditionBinding.cs:97-108 | `SkipSpace` stops at the first non-space character, or at the end. |
| Conditions.NumberRun | Assets/uDataBinder/Runtime/Binding/ConditionBinding.cs:172-177 | The number loop reads the longest run of digits and dots. |
| Conditions.NumberValue | Assets/uDataBinder/Runtime/Binding/ConditionBinding.cs:178-182 | A number literal without a dot is an Int32 (`int.Parse`), and one with a dot is a double. |
| Conditions.QuoteIndex | Assets/uDataBinder/Runtime/Binding/ConditionBinding.cs:189-194 | The string loop stops at the first `"`, or at the end. |
| Conditions.Word | Assets/uDataBinder/Runtime/Binding/ConditionBinding.cs:200-211 | The word loop stops at an operator character or at the white space after the last character it read. |
| Conditions.LexOperator | Assets/uDataBinder/Runtime/Binding/ConditionBinding.cs:121-164 | Lexing an operator consumes at least one character. |
| Conditions.LexNumber | Assets/uDataBinder/Runtime/Binding/ConditionBinding.cs:166-183 | A number lexes to a literal and consumes input. |
| Conditions.LexString | Assets/uDataBinder/Runtime/Binding/ConditionBinding.cs:184-197 | A string lexes to a literal and consumes input. |
| Conditions.LexAt | Assets/uDataBinder/Runtime/Binding/ConditionBinding.cs:117-232 | A token read at a non-space character never grows the text; a kept token consumes input, and end of text consumes nothing. |
| Conditions.Lex | Assets/uDataBinder/Runtime/Binding/ConditionBinding.cs:109-233 | `PeekToken` never grows the unread text. Every token it keeps in the lookahead consumes input. |
| Conditions.Peek | Assets/uDataBinder/Runtime/Binding/ConditionBinding.cs:109-116 | A kept lookahead is returned without reading. A peeked operator is kept, while literals, keys and end of text are not. |
| Conditions.LexOperators | Assets/uDataBinder/Runtime/Binding/ConditionBinding.cs:121-164 | Each operator character gives the operator table's token, with and without its second character. |
| Conditions.WordNeverEmpty | Assets/uDataBinder/Runtime/Binding/ConditionBinding.cs:225-228 | A word begins with the first character, so the empty-symbol branch cannot be reached. |
| Conditions.SpacedWord | Assets/uDataBinder/Runtime/Binding/ConditionBinding.cs:207-210 | White space inside a key is dropped: `a b` lexes as the key `ab`. |
| Conditions.IntLiteral | Assets/uDataBinder/Runtime/Binding/ConditionBinding.cs:166-183 | Digits in the Int32 range lex to that integer. |
| Conditions.QuotedString | Assets/uDataBinder/Runtime/Binding/ConditionBinding.cs:184-197 | A quoted string lexes to its body; an unterminated one runs to the end of the text. |
| Conditions.ParsedComparable | Assets/uDataBinder/Runtime/Binding/ConditionBinding.cs:241-257 | `ParseComparableToken` returns only comparison operators. |
| Conditions.ParsedValue | Assets/uDataBinder/Runtime/Binding/ConditionBinding.cs:259-292 | Parsing an operand never moves the reader backwards. |
| Conditions.ParsedCondition | Assets/uDataBinder/Runtime/Binding/ConditionBinding.cs:294-363 | Parsing a comparison never moves the reader backwards. |
| Conditions.ParsedAnd | Assets/uDataBinder/Runtime/Binding/ConditionBinding.cs:364-396 | Parsing an `&&` chain never moves the reader backwards. |
| Conditions.ParsedOr | Assets/uDataBinder/Runtime/Binding/ConditionBinding.cs:397-429 | Parsing an `\|\|` chain never moves the reader backwards. |
| Conditions.ValueKey | Assets/uDataBinder/Runtime/Binding/ConditionBinding.cs:283-286 | A bare key parses as a key operand. |
| Conditions.EndOfText | Assets/uDataBinder/Runtime/Binding/ConditionBinding.cs:119-120 | At the end of text the lexer gives EOF, and the `&&` and `||` loops stop. |
| Conditions.KeyBeforeJoin | Assets/uDataBinder/Runtime/Binding/ConditionBinding.cs:294-301 | A key before `&&` or `||` is a condition with the join token left in the lookahead. |
| Conditions.NotKey | Assets/uDataBinder/Runtime/Binding/ConditionBinding.cs:262-267 | `!a` parses as the negation of the key. |
| Conditions.NotBindsTighter | Assets/uDataBinder/Runtime/Binding/ConditionBinding.cs:259-302 | `!a == b` parses as `(!a) == b`. |
| Conditions.AndGroup | Assets/uDataBinder/Runtime/Binding/ConditionBinding.cs:364-396 | `b && c` parses as one `And` group. |
| Conditions.AndBindsTighter | Assets/uDataBinder/Runtime/Binding/ConditionBinding.cs:364-429 | `a \|\| b && c` parses as `a \|\| (b && c)`. |
| ConditionPrecedence.OpToken | Assets/uDataBinder/Runtime/Binding/ConditionBinding.cs:241-257 | Each of the six comparison operators is a comparison token. |
| ConditionPrecedence.WordOver | Assets/uDataBinder/Runtime/Binding/ConditionBinding.cs:198-211 | A bare word runs up to the next operator character or the end. |
| ConditionPrecedence.LexWord | Assets/uDataBinder/Runtime/Binding/ConditionBinding.cs:198-229 | A bare word before an operator or the end is one word token. |
| ConditionPrecedence.LexOp | Assets/uDataBinder/Runtime/Binding/ConditionBinding.cs:137-156 | A comparison operator not followed by `=` lexes as its own token. |
| ConditionPrecedence.OperandParses | Assets/uDataBinder/Runtime/Binding/ConditionBinding.cs:259-292 | An operand with `n` leading `!` parses as `n` nested `Not`s around its word, for any bare word. |
| ConditionPrecedence.ComparisonParses | Assets/uDataBinder/Runtime/Binding/ConditionBinding.cs:294-302 | `l op r` before an operator or the end parses as one comparison, and the text after it is left unread. |
| ConditionPrecedence.CondParses | Assets/uDataBinder/Runtime/Binding/ConditionBinding.cs:294-302 | A printed condition before a join parses as its tree, in a state that peeks as the join does. |
| ConditionPrecedence.AndTailParses | Assets/uDataBinder/Runtime/Binding/ConditionBinding.cs:364-396 | The `&&` loop reads every `&&`-joined condition, in order, and stops at `\|\|` or the end. |
| ConditionPrecedence.AndParses | Assets/uDataBinder/Runtime/Binding/ConditionBinding.cs:364-396 | A printed `&&` group parses as its single condition, or as an `And` of its conditions in order. |
| ConditionPrecedence.OrTailParses | Assets/uDataBinder/Runtime/Binding/ConditionBinding.cs:398-429 | The `\|\|` loop reads every `\|\|`-joined group, in order. |
| ConditionPrecedence.PrecedenceRoundTrip | Assets/uDataBinder/Runtime/Binding/ConditionBinding.cs:259-429 | Any text printed from groups of conditions over bare words parses back to the tree in which `!` binds tightest, then a comparison, then `&&`, then `\|\|`. |
| ConditionPrecedence.OrOfAnd | Assets/uDataBinder/Runtime/Binding/ConditionBinding.cs:364-429 | `c1 \|\| c2 && c3` parses as `c1 \|\| (c2 && c3)` for any three conditions. |
| ConditionPrecedence.AndOfOr | Assets/uDataBinder/Runtime/Binding/ConditionBinding.cs:364-429 | `c1 && c2 \|\| c3` parses as `(c1 && c2) \|\| c3` for any three conditions. |
| ConditionPrecedence.NotBeforeComparison | Assets/uDataBinder/Runtime/Binding/ConditionBinding.cs:259-302 | `!…!a op b` compares the negated word with `b`, for any words and any number of `!`. |
| ConditionPrecedence.OperatorKept | Assets/uDataBinder/Runtime/Binding/ConditionBinding.cs:109-148 | A comparison operator before an operand is peeked and kept in the lookahead. |
| ConditionPrecedence.ComparisonsDoNotChain | Assets/uDataBinder/Runtime/Binding/ConditionBinding.cs:294-302 | After `l op r`, a second comparison operator ends the parse: the result is the first comparison, and the rest is ignored. |
| Conditions.Run | Assets/uDataBinder/Runtime/Binding/ConditionBinding.cs:259-429 | A closure returns a literal or a key token. |
| Conditions.AndAllTrue | Assets/uDataBinder/Runtime/Binding/ConditionBinding.cs:379-394 | An `&&` chain is true exactly when every operand is true. |
| Conditions.OrAllFalse | Assets/uDataBinder/Runtime/Binding/ConditionBinding.cs:412-427 | An `\|\|` chain is false exactly when every operand is false. |
| Conditions.AndHolds | Assets/uDataBinder/Runtime/Binding/ConditionBinding.cs:379-394 | An `And` group holds exactly when its first operand and all the others hold. |
| Conditions.OrFails | Assets/uDataBinder/Runtime/Binding/ConditionBinding.cs:412-427 | An `Or` group fails exactly when all its operands fail. |
| Conditions.AndStops | Assets/uDataBinder/Runtime/Binding/ConditionBinding.cs:381-391 | `&&` short-circuits: after a false operand, the later operands are not evaluated. |
| Conditions.OrStops | Assets/uDataBinder/Runtime/Binding/ConditionBinding.cs:414-424 | `\|\|` short-circuits: after a true operand, the later operands are not evaluated. |
| Conditions.RegistersBeforeReading | Assets/uDataBinder/Runtime/Binding/ConditionBinding.cs:36-55 | Every key a condition reads is registered before it is read. |
| Conditions.AllRegisterBeforeReading | Assets/uDataBinder/Runtime/Binding/ConditionBinding.cs:386-425 | The same holds for `&&` and `\|\|` chains. |
| Conditions.SwappedOperands | Assets/uDataBinder/Runtime/Binding/ConditionBinding.cs:319-343 | For same-typed comparable operands, `a < b` is `b > a`, `a <= b` is `b >= a`, and `==` is symmetric. |
| Conditions.NumberEqualsItsText | Assets/uDataBinder/Runtime/Binding/ConditionBinding.cs:307-326 | An integer equals its decimal text in either order, through `ChangeType`. |
| Conditions.EqualityNotSymmetric | Assets/uDataBinder/Runtime/Binding/ConditionBinding.cs:307-326 | `1 == 1.4` is true (the right side is rounded to Int32) but `1.4 == 1` is false: the right operand is converted to the left one's type. |
| Conditions.MismatchNeitherEqualNorUnequal | Assets/uDataBinder/Runtime/Binding/ConditionBinding.cs:309-317 | A failed conversion makes both `==` and `!=` false. |
| Conditions.ConditionParser.constructor | Assets/uDataBinder/Runtime/Binding/ConditionBinding.cs:92-96 | The reader starts at the beginning of the text with no lookahead. |
| Conditions.ConditionParser.PeekChar | Assets/uDataBinder/Runtime/Binding/ConditionBinding.cs:63-67 | `Peek()` returns the next character, or none at the end. |
| Conditions.ConditionParser.Read | Assets/uDataBinder/Runtime/Binding/ConditionBinding.cs:68-72 | `Read()` advances one character unless at the end. |
| Conditions.ConditionParser.ReadIf | Assets/uDataBinder/Runtime/Binding/ConditionBinding.cs:73-90 | `Read(chars)` consumes the next character exactly when it is the one asked for. |
| Conditions.ConditionParser.SkipSpace | Assets/uDataBinder/Runtime/Binding/ConditionBinding.cs:97-108 | The loop leaves the reader where `SkipSpaces` says. |
| Conditions.ConditionParser.ReadOperator | Assets/uDataBinder/Runtime/Binding/ConditionBinding.cs:121-164 | The operator branches compute `LexOperator` and keep the token in the lookahead. |
| Conditions.ConditionParser.ReadNumber | Assets/uDataBinder/Runtime/Binding/ConditionBinding.cs:166-183 | The number loop computes `LexNumber`, raising exactly when it does. |
| Conditions.ConditionParser.ReadString | Assets/uDataBinder/Runtime/Binding/ConditionBinding.cs:184-197 | The string loop computes `LexString`. |
| Conditions.ConditionParser.ReadWord | Assets/uDataBinder/Runtime/Binding/ConditionBinding.cs:198-230 | The word loop computes `Word`, and its token is the keyword or key `WordToken` gives. |
| Conditions.ConditionParser.PeekToken | Assets/uDataBinder/Runtime/Binding/ConditionBinding.cs:109-233 | `PeekToken` computes `Peek` on the reader's state, raising exactly when it does. |
| Conditions.ConditionParser.ParseToken | Assets/uDataBinder/Runtime/Binding/ConditionBinding.cs:234-239 | `ParseToken` returns the peeked token and clears the lookahead. |
| Conditions.ConditionParser.ParseValue | Assets/uDataBinder/Runtime/Binding/ConditionBinding.cs:259-292 | `ParseValue` computes `ParsedValue`, raising exactly when it does. |
| Conditions.ConditionParser.ParseComparableToken | Assets/uDataBinder/Runtime/Binding/ConditionBinding.cs:241-257 | `ParseComparableToken` computes `ParsedComparable`. |
| Conditions.ConditionParser.ParseCondition | Assets/uDataBinder/Runtime/Binding/ConditionBinding.cs:294-302 | `ParseCondition` computes `ParsedCondition`. |
| Conditions.ConditionParser.ParseAnd | Assets/uDataBinder/Runtime/Binding/ConditionBinding.cs:364-378 | The `&&` loop computes `ParsedAnd`. |
| Conditions.ConditionParser.ParseOr | Assets/uDataBinder/Runtime/Binding/ConditionBinding.cs:397-411 | The `\|\|` loop computes `ParsedOr`. |
| Conditions.ConditionParser.Parse | Assets/uDataBinder/Runtime/Binding/ConditionBinding.cs:430-437 | A fresh parser returns the tree `Parsed` gives for the whole text. |
| Conditions.ConditionBinding.constructor | Assets/uDataBinder/Runtime/Binding/ConditionBinding.cs:442 | The parse cache starts empty. |
| Conditions.ConditionBinding.Parse | Assets/uDataBinder/Runtime/Binding/ConditionBinding.cs:443-465 | The cache never changes the answer: the result is always a fresh parse and evaluation. A text is cached exactly when it parses, and cached trees never change. |
| Templates.Parse | Assets/uDataBinder/Runtime/Binding/TemplateBinding.cs:32-106 | The loop and self-call compute `Render`, including the re-parse after a nested `{`. |
| Templates.ScanAllJoin | Assets/uDataBinder/Runtime/Binding/TemplateBinding.cs:39-94 | Scanning `a + b` is scanning `a`, then `b` from the state it leaves. |
| Templates.ScanPlain | Assets/uDataBinder/Runtime/Binding/TemplateBinding.cs:83-88 | Outside a key, text without `{` is copied unchanged. |
| Templates.ScanKey | Assets/uDataBinder/Runtime/Binding/TemplateBinding.cs:89-92 | Inside a key, text without braces is added to the key. |
| Templates.PlainTextUnchanged | Assets/uDataBinder/Runtime/Binding/TemplateBinding.cs:32-106 | A template without `{` renders as itself, with no lookups. |
| Templates.ScanHole | Assets/uDataBinder/Runtime/Binding/TemplateBinding.cs:54-77 | `{key}` appends the text of the key's value, then registers the key only when there is a binder. |
| Templates.Substitution | Assets/uDataBinder/Runtime/Binding/TemplateBinding.cs:32-106 | `before{key}after` renders as `before` + value text + `after`, or raises when the lookup raises. |
| Templates.UnterminatedKey | Assets/uDataBinder/Runtime/Binding/TemplateBinding.cs:96-99 | An unterminated `{key` is put back literally, brace included, with no lookup. |
| Templates.ScanOpening | Assets/uDataBinder/Runtime/Binding/TemplateBinding.cs:45-52 | A second `{` inside a key flushes `{` and the partial key to the result and flags a re-parse. |
| Templates.ScanNested | Assets/uDataBinder/Runtime/Binding/TemplateBinding.cs:43-77 | `{first{key}` becomes `{first` followed by the key's value text, with the re-parse flag set. |
| Templates.NestedOpen | Assets/uDataBinder/Runtime/Binding/TemplateBinding.cs:100-103 | `{first{key}` is parsed again after the substitution. |
| Templates.SelfFeeding | Assets/uDataBinder/Runtime/Binding/TemplateBinding.cs:100-103 | `{{a}` with `a = "{a}"` re-parses forever, so no bound on re-parses suffices. |
| Templates.ScanRecursive | Assets/uDataBinder/Runtime/Binding/TemplateBinding.cs:45-50 | The re-parse flag is set exactly when the text nests a `{` inside an open key. |
| Templates.ReparseExactlyWhenNested | Assets/uDataBinder/Runtime/Binding/TemplateBinding.cs:96-103 | A closed template is parsed again exactly when it nests a `{`; otherwise the re-parse bound is irrelevant. |
| DataBinders.DataBinder.constructor | Assets/uDataBinder/Runtime/Binder/DataBinder.cs:9-31 | A new binder has no cached level and is not initialised. |
| DataBinders.DataBinder.HierarchyLevel | Assets/uDataBinder/Runtime/Binder/DataBinder.cs:10-29 | An uncached level is counted up the parent chain (the depth) and stored; a cached level is returned as it is. A cache that agreed with the tree still does. |
| DataBinders.DataBinder.SetDirty | Assets/uDataBinder/Runtime/Binder/DataBinder.cs:88-91 | The binder is queued at its level; a forced call takes it out of the completed set. |
| DataBinders.DataBinder.Initialize | Assets/uDataBinder/Runtime/Binder/DataBinder.cs:54-58 | The binder is queued (not forced) and marked initialised. |
| DataBinders.DataBinder.Release | Assets/uDataBinder/Runtime/Binder/DataBinder.cs:60-70 | The binder is marked not initialised and leaves every trie; the trie nodes stay. |
| DataBinders.DataBinder.OnValidate | Assets/uDataBinder/Runtime/Binder/DataBinder.cs:45-52 | An initialised binder is released and queued again; any other binder is left alone. |
| AliasGroups.AliasGroup.constructor | Assets/uDataBinder/Runtime/Binder/AliasGroup.cs:8-23 | A new group has an empty alias and holds no value. |
| AliasGroups.AliasGroup.SetAlias | Assets/uDataBinder/Runtime/Binder/AliasGroup.cs:12-20 | Setting the same alias changes nothing. A different alias is stored, drops the held value and queues the group. |
| AliasGroups.AliasGroup.Lookup | Assets/uDataBinder/Runtime/Binder/AliasGroup.cs:24 | With a held value, that value, and no cache changes. Otherwise the result and the target bucket's new cache are exactly the fetch for the key from the group's own node, and every other cache is unchanged. |
| AliasGroups.AliasGroup.Value | Assets/uDataBinder/Runtime/Binder/AliasGroup.cs:24 | `Value` is the held value, or exactly the fetch at the group's alias; only the target bucket's cache changes. |
| RepeatItems.ItemAlias | Assets/uDataBinder/Runtime/Repeater/RepeatItem.cs:21-24 | An item's alias splits into the base alias's segments followed by the data index. |
| RepeatItems.IntTextHasNoDelimiter | Assets/uDataBinder/Runtime/Repeater/RepeatItem.cs:23 | An integer's text never contains `.`. |
| RepeatItems.SplitSuffix | Assets/uDataBinder/Runtime/Repeater/RepeatItem.cs:23 | A `.`-free tail after a `.` becomes exactly one last segment. |
| RepeatItems.RepeatItem.constructor | Assets/uDataBinder/Runtime/Repeater/RepeatItem.cs:13-17 | A new item is released (indexes -1) and active. |
| RepeatItems.RepeatItem.InitializeItem | Assets/uDataBinder/Runtime/Repeater/RepeatItem.cs:33-40 | The alias and both indexes are stored without going through the setter, the held value is dropped and the item is queued. |
| RepeatItems.RepeatItem.ReleaseItem | Assets/uDataBinder/Runtime/Repeater/RepeatItem.cs:42-48 | The item returns to the released state; nothing is queued. |
| RepeatItems.RepeatItem.Value | Assets/uDataBinder/Runtime/Binder/AliasGroup.cs:24 | The item's value is looked up through the overridden alias `alias.dataIndex`. It is exactly the fetch there, and only the target bucket's cache changes. |
| RepeatItems.RepeatItem.GetParent | Assets/uDataBinder/Runtime/Repeater/RepeatItem.cs:50-53 | The nearest repeater at or above the item. |
| Repeaters.Range | Assets/uDataBinder/Runtime/Repeater/Repeater.cs:88-92 | The unfiltered selection is `0 … n-1`. |
| Repeaters.CandidatesRaiseExactly | Assets/uDataBinder/Runtime/Repeater/Repeater.cs:73-85 | The filter loop raises exactly when the filter is set and some element's evaluation raises. |
| Repeaters.CandidatesRaise | Assets/uDataBinder/Runtime/Repeater/Repeater.cs:76-84 | Once an element's evaluation raises, every longer list raises too. |
| Repeaters.CandidatesAreTheKeptOnes | Assets/uDataBinder/Runtime/Repeater/Repeater.cs:73-93 | The filtered list is increasing and in range, and holds an index exactly when the filter accepts that element. |
| Repeaters.Insert | Assets/uDataBinder/Runtime/Repeater/Repeater.cs:101-105 | Inserting adds exactly the one element. |
| Repeaters.SortBy | Assets/uDataBinder/Runtime/Repeater/Repeater.cs:101-105 | `OrderBy` is a permutation of its input. |
| Repeaters.InsertSorted | Assets/uDataBinder/Runtime/Repeater/Repeater.cs:101-105 | Insertion into a sorted list keeps it sorted. |
| Repeaters.SortBySorts | Assets/uDataBinder/Runtime/Repeater/Repeater.cs:101-105 | `OrderBy` sorts by rank, stably (ties keep their input order). |
| Repeaters.Reversed | Assets/uDataBinder/Runtime/Repeater/Repeater.cs:107-110 | `Reverse` puts element `i` at position `n-1-i`. |
| Repeaters.ReversedKeepsElements | Assets/uDataBinder/Runtime/Repeater/Repeater.cs:107-110 | `Reverse` is a permutation. |
| Repeaters.ReversedIsSortedDown | Assets/uDataBinder/Runtime/Repeater/Repeater.cs:107-110 | Reversing an ascending stable order gives a descending order. |
| Repeaters.TrimDashes | Assets/uDataBinder/Runtime/Repeater/Repeater.cs:98 | `TrimStart('-')` returns a suffix of the text that has no leading `-`, and everything it removed is `-`. |
| Repeaters.WindowIsSlice | Assets/uDataBinder/Runtime/Repeater/Repeater.cs:113-120 | `Skip`/`Take` select one contiguous run of the advertised length. |
| Repeaters.WindowKeepsOrder | Assets/uDataBinder/Runtime/Repeater/Repeater.cs:113-120 | The window keeps elements, distinctness and every order of its input. |
| Repeaters.PermutationKeepsDistinct | Assets/uDataBinder/Runtime/Repeater/Repeater.cs:95-111 | A rearrangement of a list without duplicates has none. |
| Repeaters.OrderedIsSorted | Assets/uDataBinder/Runtime/Repeater/Repeater.cs:95-111 | The sort step is a permutation. It is the identity without a key, ascending by rank for a key, and descending for a key starting with `-`. |
| Repeaters.ArrangedIsValid | Assets/uDataBinder/Runtime/Repeater/Repeater.cs:95-121 | Sort and window yield distinct selected indexes of the window's length, in the promised order. |
| Repeaters.ListingIsValid | Assets/uDataBinder/Runtime/Repeater/Repeater.cs:66-126 | `Indexes` yields distinct in-range indexes of accepted elements, of the window's length, in index order without a sort key and in rank order with one. |
| Repeaters.EveryIndexByDefault | Assets/uDataBinder/Runtime/Repeater/Repeater.cs:66-126 | With no filter, sort, skip or limit, `Indexes` is every element index in order. |
| Repeaters.CountIgnoresWindow | Assets/uDataBinder/Runtime/Repeater/Repeater.cs:128-164 | `Count` counts the filtered elements before skip and limit. It bounds the length of `Indexes` and equals it without a window. |
| Repeaters.Marks | Assets/uDataBinder/Runtime/Repeater/Repeater.cs:213-225 | The queue entries the reused children add: each child's level and binder. |
| Repeaters.Repeater.constructor | Assets/uDataBinder/Runtime/Repeater/Repeater.cs:166-178 | A repeater starts with its settings, no count and the children `Awake` collected. |
| Repeaters.Repeater.SetTarget | Assets/uDataBinder/Runtime/Repeater/Repeater.cs:20-27 | The target is stored and the repeater queued. |
| Repeaters.Repeater.SetFilter | Assets/uDataBinder/Runtime/Repeater/Repeater.cs:29-36 | The filter is stored and the repeater queued. |
| Repeaters.Repeater.SetSort | Assets/uDataBinder/Runtime/Repeater/Repeater.cs:38-45 | The sort key is stored and the repeater queued. |
| Repeaters.Repeater.SetSkip | Assets/uDataBinder/Runtime/Repeater/Repeater.cs:47-54 | The skip is stored and the repeater queued. |
| Repeaters.Repeater.SetLimit | Assets/uDataBinder/Runtime/Repeater/Repeater.cs:56-63 | The limit is stored and the repeater queued. |
| Repeaters.Repeater.Kept | Assets/uDataBinder/Runtime/Repeater/Repeater.cs:73-85 | The filter loop computes `Candidates`, and the condition cache stays valid. |
| Repeaters.Repeater.Indexes | Assets/uDataBinder/Runtime/Repeater/Repeater.cs:66-126 | The getter returns `Listing`, whose properties are `ListingIsValid`, and stores its length as the count; a raise leaves the count alone. |
| Repeaters.Repeater.CountKept | Assets/uDataBinder/Runtime/Repeater/Repeater.cs:139-151 | The filtered count loop counts `Candidates`, raising exactly when it does. |
| Repeaters.Repeater.Count | Assets/uDataBinder/Runtime/Repeater/Repeater.cs:128-164 | A stored count is returned unchanged. Otherwise `Count` computes `Counted` (0 for a null target) and stores it. |
| Repeaters.Repeater.ReleaseItem | Assets/uDataBinder/Runtime/Repeater/Repeater.cs:199-203 | The item is released and deactivated. |
| Repeaters.Repeater.InitializeItem | Assets/uDataBinder/Runtime/Repeater/Repeater.cs:193-197 | The item is activated, shows the given element at the given position, and is queued. |
| Repeaters.Repeater.Settle | Assets/uDataBinder/Runtime/Repeater/Repeater.cs:215-223 | A reused child shows its index when one is left for it, and is released otherwise. |
| Repeaters.Repeater.Clear | Assets/uDataBinder/Runtime/Repeater/Repeater.cs:185-191 | Every child is released. |
| Repeaters.Repeater.Release | Assets/uDataBinder/Runtime/Repeater/Repeater.cs:180-183 | The override only clears: every child is released. |
| Repeaters.Repeater.Reuse | Assets/uDataBinder/Runtime/Repeater/Repeater.cs:212-225 | Child `k` shows `ix[k]` or is released, and exactly the reused children are queued. |
| Repeaters.Repeater.Spawn | Assets/uDataBinder/Runtime/Repeater/Repeater.cs:231-232 | A new item from the prefab shows its element and is queued at its node's depth. |
| Repeaters.Repeater.Extend | Assets/uDataBinder/Runtime/Repeater/Repeater.cs:227-235 | New children are appended for exactly the indexes left over, each showing its element and queued; the old children are kept in front. |
| Repeaters.Repeater.Layout | Assets/uDataBinder/Runtime/Repeater/Repeater.cs:210-240 | No index clears every child. Otherwise the children are reused and, with a prefab, extended, as `LaidOut` states. |
| Repeaters.Repeater.Subscribe | Assets/uDataBinder/Runtime/Repeater/Repeater.cs:207 | The repeater's target is registered in the runtime, as `DataBinding.Register` specifies, without touching any child. |
| Repeaters.Repeater.Refresh | Assets/uDataBinder/Runtime/Repeater/Repeater.cs:209-240 | Selection then layout: a raise changes nothing; otherwise the count is stored and the children are laid out for `Listing`. |
| Repeaters.Repeater.RebuildAsync | Assets/uDataBinder/Runtime/Repeater/Repeater.cs:205-243 | Register, select and lay out. It raises exactly when the selection does, and otherwise leaves the children laid out for `Listing`. |

## Left out

- **Scene and Unity objects.** These are given as values rather than read from
  the engine:
  - the transform tree is the `Tree` parameter;
  - destroyed objects are the set `live`;
  - `activeSelf && enabled` is the set `active`;
  - `gameObject.SetActive` on items is the `active` field.
- `OnEnable`, `OnDisable`, `DataBinder.Rebuild` and the `_rebuildTask`
  disposal are not modelled: they are Unity callbacks and task plumbing.
  `Initialize` and `Release` are modelled.
- **`Execute` is modelled without its asynchrony.** `Task.WhenAll` and the
  rebuilds themselves are abstracted: each rebuild is a `Run`, and what it
  marks dirty is the parameter `dirties`. The `Debug.Log` summary is not
  modelled.
- **Levels are parameters in some places.** `Bindings.DataBinding.Notify`,
  `Set`, `SetValue` and `Execute` queue a marked binder at `depthOf(b)`, which
  stands for its `HierarchyLevel`. `DataBinder.HierarchyLevel` and its caching
  are modelled on their own.
- **Values are simplified:**
  - doubles are decimals `mant / 10^scale`, with no NaN, infinities,
    exponents or binary rounding;
  - `double.ToString` drops trailing zeros;
  - `double.Parse` reads plain decimals only: exponents, thousands
    separators, `NaN` and `Infinity` are format errors here, and the culture
    is the invariant one;
  - `Convert.ChangeType` covers null, `bool`, `int`, `double`, `string`,
    `char`, `object` and the three container kinds; `long`, `float`,
    `decimal` and the other numeric types are not modelled.
- **String handling is ordinal and ASCII.** `string.CompareTo` is modelled
  as ordinal comparison, where .NET uses the current culture. So is the
  parked-key test `lazyRegister.Key.StartsWith(key)` in `DataBinding.Set`
  (Assets/uDataBinder/Runtime/Binding/DataBinding.cs:36), which in .NET is
  culture-sensitive and can match or miss prefixes that an ordinal test would
  not.
  `char.IsNumber`, `char.IsWhiteSpace` and `OrdinalIgnoreCase` cover ASCII
  only.
- **Reflection is limited to a table.** Only three shapes of container are
  modelled: lists, string-keyed dictionaries and field-only objects. Other
  public properties and custom indexers are not modelled. `GetField(key)`
  (Assets/uDataBinder/Runtime/Binding/DataBindingReference.cs:160, 262) also
  finds public static fields, so in the source `int.MaxValue`,
  `string.Empty` or `char.MaxValue` resolve on any `int`, `string` or `char`
  value; here a scalar has no fields and such a key finds nothing.
- `Debug.LogError` output is not modelled. The control flow it sits in is.
- **Condition and template data access is a parameter.** They read through
  `Env.lookup`, which stands for `DataBinding.GetValue` on the same store.
  Their `Register` calls are recorded as events rather than applied to the
  registry.
- `ConditionPrecedence.PrecedenceRoundTrip` and its corollaries cover texts
  without white space, parentheses, number literals or quoted strings: each
  operand is a bare word with leading `!`s. Those other forms are covered by
  the single-case lemmas in `Conditions` and by the parser's equality with
  `ParsedOr`, not by a precedence lemma.
- `TemplateBinding.IsSuccessfullyConverted` is not modelled. It builds a
  regular expression from a template, and regular expressions are not part of
  this model.
- `Templates.Parse`: the self-call for a nested `{` is unbounded in the
  source. The model takes a re-parse bound `fuel` and reports `Exhausted` when
  the bound runs out. `Templates.SelfFeeding` shows that a template can need
  unboundedly many re-parses.
- `Bindings.DataBinding.Set` requires that re-registering each flushed
  parked entry finds a bucket (`Reattaches`). In the source, an entry that
  still finds none is parked again while the dictionary is being enumerated,
  and that throws `InvalidOperationException`. The model does not include
  that path.
- `BindingReferences.Store`: a store that raises part-way returns `Fault`
  without the heap changes made before the exception.
- `BindingReferences.Store`: a field that holds an array is written back
  through `Array.Copy` into a new array in the source; arrays are not
  modelled, so that branch is not either. Properties with setters and
  custom indexers are not modelled (see the reflection line above).
- `Values.ChangeType`: an `int` in the UTF-16 surrogate range
  0xD800–0xDFFF converts to a `char` in .NET but raises here, because a
  Dafny `char` is a Unicode scalar value. Strings are sequences of scalar
  values too, so characters outside the Basic Multilingual Plane are one
  `char` here and two in .NET.
- `Repeaters.Repeater.RebuildAsync`: its contract does not restate the
  registration's effect on the trie or that the runtime stays well formed.
  `Repeaters.Repeater.Subscribe`, which performs that registration, states
  both.
- `Repeaters.Repeater.Count`: when a filter evaluation raises, the contract
  says only that some count is stored. The source leaves the partial count
  behind.
- **Repeater inputs are simplified:**
  - the target list is given by its element count `elements` (`None` for a
    null target), not as an enumerable of values;
  - the sort comparer is a rank function `order` over sort keys, so
    comparisons that raise are not modelled;
  - `Instantiate` is the parameter `copies`, assumed to give a binder and
    node not used by any existing child;
  - `Awake`'s scan of the content's children is the constructor's `children`
    argument;
  - `RepeatItem.Awake`'s anchor and pivot settings are not modelled.

## Findings

| source | as written | input that shows it | evidently intended | confidence | as-written member | corrected member |
|---|---|---|---|---|---|---|
| Assets/uDataBinder/Runtime/Binding/DataBinding.cs:344 | `SetValue` notifies `keys`, the key as the caller wrote it, after storing at the resolved path | global `items`; a binder under an alias group `items.3` calls `SetValue("*.name", v)`: the store hits `items.3.name`, but `Notify("*.name")` finds no bucket, so nothing is marked and the cached `items.3.name` survives | notify the resolved path, so its cache entries are evicted and its binders queued | not executed | Bindings.DataBinding.SetValue, Bindings.AliasedSetValueMissesItsPath | Bindings.DataBinding.SetValueNotifyingPath |
