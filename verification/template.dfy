/**
 * `TemplateBinding.Parse`: text with `{key}` holes, each replaced by the text of
 * the value stored under the key.
 *
 * The source scans the template once, left to right, keeping the text produced
 * so far, the key being read, whether a key is open (`startPosition >= 0`) and
 * whether a `{` was met while a key was already open.  Malformed input falls
 * back to literal text, and a template that had such a nested `{` is scanned
 * again, result and all.  Here `Step` is one turn of that loop, `ScanAll` the
 * whole loop, and `Render` the scan followed by the re-parse; the method
 * `Parse` is the loop itself, proved equal to `Render`.
 *
 * The re-parse is unbounded in the source; `Render` takes a number of re-parses
 * it may still make and says `Exhausted` when that runs out.
 */
module Templates {
  import opened Wrappers
  import opened Text
  import opened Values
  import C = Conditions

  /** The loop's variables between two characters; `open` is `startPosition >= 0`. */
  datatype Scan = Scan(result: string, key: string, open: bool, recursive: bool, calls: seq<C.Event>)

  const Start: Scan := Scan("", "", false, false, [])

  /**
   * `}` closing a key: `DataBinding.GetValue(key)` is read, its text appended
   * (nothing for null), and then, only when there is a binder, the key is
   * registered with it.
   */
  function Substitute(sc: Scan, hasBinder: bool, env: C.Env): Outcome<Scan> {
    match env.lookup(sc.key)
    case Fault => Fault
    case Ok(v) =>
      Ok(Scan(sc.result + ToText(env.heap, v), "", false, sc.recursive,
              sc.calls + [C.Read(sc.key)] + if hasBinder then [C.Registered(sc.key)] else []))
  }

  /** One turn of the `for` loop, on the character `c`. */
  function Step(sc: Scan, c: char, hasBinder: bool, env: C.Env): Outcome<Scan> {
    if c == LeftDelimiter then
      Ok(if sc.open then sc.(result := sc.result + [LeftDelimiter] + sc.key, key := "", recursive := true)
         else sc.(open := true))
    else if c == RightDelimiter then
      (if sc.open then Substitute(sc, hasBinder, env) else Ok(sc.(result := sc.result + [c])))
    else if sc.open then Ok(sc.(key := sc.key + [c]))
    else Ok(sc.(result := sc.result + [c]))
  }

  /** The loop over all of `s` from the state `sc`; `Fault` when a lookup raises. */
  function ScanAll(sc: Scan, s: string, hasBinder: bool, env: C.Env): Outcome<Scan>
    decreases |s|
  {
    if s == [] then Ok(sc)
    else match Step(sc, s[0], hasBinder, env)
      case Fault => Fault
      case Ok(next) => ScanAll(next, s[1..], hasBinder, env)
  }

  /** The text `Parse` returns with the calls it made, an exception, or too many re-parses. */
  datatype Rendering = Rendered(text: string, calls: seq<C.Event>) | Raised | Exhausted

  /**
   * `Parse(template, dataBinder)` allowed `fuel` re-parses: after the loop, a key
   * still open is put back literally, `{` included; otherwise, when a nested `{`
   * was met, the result is parsed again.
   */
  function Render(template: string, hasBinder: bool, env: C.Env, fuel: nat): Rendering
    decreases fuel
  {
    match ScanAll(Start, template, hasBinder, env)
    case Fault => Raised
    case Ok(sc) =>
      if sc.open then Rendered(sc.result + [LeftDelimiter] + sc.key, sc.calls)
      else if !sc.recursive then Rendered(sc.result, sc.calls)
      else if fuel == 0 then Exhausted
      else match Render(sc.result, hasBinder, env, fuel - 1)
        case Rendered(text, calls) => Rendered(text, sc.calls + calls)
        case other => other
  }

  /** `Parse`: the character loop and the self-call, as the source runs them. */
  method Parse(template: string, hasBinder: bool, env: C.Env, fuel: nat) returns (r: Rendering)
    ensures r == Render(template, hasBinder, env, fuel)
    decreases fuel
  {
    var result := "";
    var key := "";
    var startPosition := -1;
    var recursive := false;
    var calls: seq<C.Event> := [];
    var i := 0;
    while i < |template|
      invariant 0 <= i <= |template|
      invariant ScanAll(Start, template, hasBinder, env)
             == ScanAll(Scan(result, key, startPosition >= 0, recursive, calls), template[i..], hasBinder, env)
    {
      var s := template[i];
      assert template[i..][0] == s && template[i..][1..] == template[i + 1..];
      ghost var before := Scan(result, key, startPosition >= 0, recursive, calls);
      if s == LeftDelimiter {
        if startPosition >= 0 {
          result := result + [LeftDelimiter] + key;
          key := "";
          recursive := true;
        }
        startPosition := i;
      } else if s == RightDelimiter {
        if startPosition >= 0 {
          var value := env.lookup(key);
          if value.Fault? {
            assert Step(before, s, hasBinder, env) == Fault;
            return Raised;
          }
          result := result + ToText(env.heap, value.value);
          calls := calls + [C.Read(key)];
          if hasBinder {
            calls := calls + [C.Registered(key)];
          } else {
            assert calls == calls + [];
          }
          startPosition := -1;
          key := "";
        } else {
          result := result + [s];
        }
      } else {
        if startPosition < 0 {
          result := result + [s];
        } else {
          key := key + [s];
        }
      }
      assert Step(before, s, hasBinder, env) == Ok(Scan(result, key, startPosition >= 0, recursive, calls));
      i := i + 1;
    }
    assert template[i..] == [];
    if startPosition >= 0 {
      result := result + [LeftDelimiter] + key;
    } else if recursive {
      if fuel == 0 {
        return Exhausted;
      }
      var again := Parse(result, hasBinder, env, fuel - 1);
      if again.Rendered? {
        return Rendered(again.text, calls + again.calls);
      }
      return again;
    }
    r := Rendered(result, calls);
  }

  // ---------------------------------------------------------------------------
  // Properties of the scanner

  /** Scanning `a + b` is scanning `a`, then `b` from where `a` left off. */
  lemma {:induction false} ScanAllJoin(sc: Scan, a: string, b: string, hasBinder: bool, env: C.Env)
    ensures ScanAll(sc, a + b, hasBinder, env)
         == match ScanAll(sc, a, hasBinder, env)
            case Fault => Fault
            case Ok(mid) => ScanAll(mid, b, hasBinder, env)
    decreases |a|
  {
    if a != [] {
      assert (a + b)[0] == a[0] && (a + b)[1..] == a[1..] + b;
      match Step(sc, a[0], hasBinder, env)
      case Fault =>
        assert ScanAll(sc, a + b, hasBinder, env) == Fault;
        assert ScanAll(sc, a, hasBinder, env) == Fault;
      case Ok(next) =>
        ScanAllJoin(next, a[1..], b, hasBinder, env);
        assert ScanAll(sc, a + b, hasBinder, env) == ScanAll(next, a[1..] + b, hasBinder, env);
        assert ScanAll(sc, a, hasBinder, env) == ScanAll(next, a[1..], hasBinder, env);
    } else {
      assert a + b == b;
    }
  }

  /** Outside a key, text without `{` is copied as it is, `}` included. */
  lemma {:induction false} ScanPlain(sc: Scan, s: string, hasBinder: bool, env: C.Env)
    requires !sc.open && LeftDelimiter !in s
    ensures ScanAll(sc, s, hasBinder, env) == Ok(sc.(result := sc.result + s))
    decreases |s|
  {
    if s != [] {
      assert s[0] in s;
      var next := sc.(result := sc.result + [s[0]]);
      assert Step(sc, s[0], hasBinder, env) == Ok(next);
      assert forall c :: c in s[1..] ==> c in s;
      ScanPlain(next, s[1..], hasBinder, env);
      assert sc.result + [s[0]] + s[1..] == sc.result + s;
    } else {
      assert sc.result + s == sc.result;
    }
  }

  /** Inside a key, text without braces becomes part of the key. */
  lemma {:induction false} ScanKey(sc: Scan, s: string, hasBinder: bool, env: C.Env)
    requires sc.open && LeftDelimiter !in s && RightDelimiter !in s
    ensures ScanAll(sc, s, hasBinder, env) == Ok(sc.(key := sc.key + s))
    decreases |s|
  {
    if s != [] {
      assert s[0] in s;
      var next := sc.(key := sc.key + [s[0]]);
      assert Step(sc, s[0], hasBinder, env) == Ok(next);
      assert forall c :: c in s[1..] ==> c in s;
      ScanKey(next, s[1..], hasBinder, env);
      assert sc.key + [s[0]] + s[1..] == sc.key + s;
    } else {
      assert sc.key + s == sc.key;
    }
  }

  /** A template without `{` is returned unchanged, `}` included, and nothing is read. */
  lemma PlainTextUnchanged(template: string, hasBinder: bool, env: C.Env, fuel: nat)
    requires LeftDelimiter !in template
    ensures Render(template, hasBinder, env, fuel) == Rendered(template, [])
  {
    ScanPlain(Start, template, hasBinder, env);
  }

  /** The calls one `{key}` makes: the read, then the registration when there is a binder. */
  function KeyCalls(key: string, hasBinder: bool): seq<C.Event> {
    [C.Read(key)] + if hasBinder then [C.Registered(key)] else []
  }

  /** Scanning `{key}` from outside a key substitutes the key's value. */
  lemma ScanHole(sc: Scan, key: string, hasBinder: bool, env: C.Env)
    requires !sc.open && sc.key == ""
    requires LeftDelimiter !in key && RightDelimiter !in key
    ensures ScanAll(sc, [LeftDelimiter] + key + [RightDelimiter], hasBinder, env)
         == match env.lookup(key)
            case Fault => Fault
            case Ok(v) => Ok(sc.(result := sc.result + ToText(env.heap, v), calls := sc.calls + KeyCalls(key, hasBinder)))
  {
    var entered := sc.(open := true);
    assert [LeftDelimiter] + key + [RightDelimiter] == [LeftDelimiter] + (key + [RightDelimiter]);
    ScanAllJoin(sc, [LeftDelimiter], key + [RightDelimiter], hasBinder, env);
    assert [LeftDelimiter][1..] == [];
    assert ScanAll(sc, [LeftDelimiter], hasBinder, env) == Ok(entered);
    ScanAllJoin(entered, key, [RightDelimiter], hasBinder, env);
    ScanKey(entered, key, hasBinder, env);
    assert "" + key == key;
    var keyed := entered.(key := key);
    assert [RightDelimiter][1..] == [];
    assert ScanAll(keyed, [RightDelimiter], hasBinder, env) == Substitute(keyed, hasBinder, env);
    assert sc.calls + [C.Read(key)] + (if hasBinder then [C.Registered(key)] else [])
        == sc.calls + KeyCalls(key, hasBinder);
  }

  /**
   * `{key}` between plain texts is replaced by the text of the key's value (the
   * empty string for null), with one read of the key and, given a binder, one
   * registration after it; no re-parse follows.
   */
  lemma Substitution(before: string, key: string, after: string, hasBinder: bool, env: C.Env, fuel: nat)
    requires LeftDelimiter !in before && LeftDelimiter !in after
    requires LeftDelimiter !in key && RightDelimiter !in key
    ensures env.lookup(key).Fault? ==>
      Render(before + [LeftDelimiter] + key + [RightDelimiter] + after, hasBinder, env, fuel) == Raised
    ensures env.lookup(key).Ok? ==>
      Render(before + [LeftDelimiter] + key + [RightDelimiter] + after, hasBinder, env, fuel)
        == Rendered(before + ToText(env.heap, env.lookup(key).value) + after, KeyCalls(key, hasBinder))
  {
    var hole := [LeftDelimiter] + key + [RightDelimiter];
    assert before + [LeftDelimiter] + key + [RightDelimiter] + after == before + (hole + after);
    ScanAllJoin(Start, before, hole + after, hasBinder, env);
    ScanPlain(Start, before, hasBinder, env);
    assert "" + before == before;
    var mid := Start.(result := before);
    ScanAllJoin(mid, hole, after, hasBinder, env);
    ScanHole(mid, key, hasBinder, env);
    if env.lookup(key).Ok? {
      var filled := mid.(result := before + ToText(env.heap, env.lookup(key).value), calls := KeyCalls(key, hasBinder));
      assert [] + KeyCalls(key, hasBinder) == KeyCalls(key, hasBinder);
      ScanPlain(filled, after, hasBinder, env);
    }
  }

  /** An unterminated trailing `{key` is put back literally, `{` included, and nothing is read. */
  lemma UnterminatedKey(before: string, key: string, hasBinder: bool, env: C.Env, fuel: nat)
    requires LeftDelimiter !in before
    requires LeftDelimiter !in key && RightDelimiter !in key
    ensures Render(before + [LeftDelimiter] + key, hasBinder, env, fuel) == Rendered(before + [LeftDelimiter] + key, [])
  {
    assert before + [LeftDelimiter] + key == before + ([LeftDelimiter] + key);
    ScanAllJoin(Start, before, [LeftDelimiter] + key, hasBinder, env);
    ScanPlain(Start, before, hasBinder, env);
    assert "" + before == before;
    var mid := Start.(result := before);
    ScanAllJoin(mid, [LeftDelimiter], key, hasBinder, env);
    assert ScanAll(mid, [LeftDelimiter], hasBinder, env) == Ok(mid.(open := true));
    ScanKey(mid.(open := true), key, hasBinder, env);
    assert "" + key == key;
  }

  /**
   * A `{` inside an open key puts the pending `{` and key text back literally and
   * starts a new key: `{first{` leaves `{first` as text with a fresh key open.
   */
  lemma ScanOpening(first: string, hasBinder: bool, env: C.Env)
    requires LeftDelimiter !in first && RightDelimiter !in first
    ensures ScanAll(Start, [LeftDelimiter] + first + [LeftDelimiter], hasBinder, env)
         == Ok(Scan([LeftDelimiter] + first, "", true, true, []))
  {
    var opening := [LeftDelimiter] + first + [LeftDelimiter];
    // `{first` is read as a key ...
    var pending := Start.(open := true);
    ScanAllJoin(Start, [LeftDelimiter], first + [LeftDelimiter], hasBinder, env);
    assert opening == [LeftDelimiter] + (first + [LeftDelimiter]);
    assert ScanAll(Start, [LeftDelimiter], hasBinder, env) == Ok(pending);
    ScanAllJoin(pending, first, [LeftDelimiter], hasBinder, env);
    ScanKey(pending, first, hasBinder, env);
    assert "" + first == first;
    // ... until the second `{` puts it back as text and starts over.
    assert "" + [LeftDelimiter] + first == [LeftDelimiter] + first;
    assert ScanAll(pending.(key := first), [LeftDelimiter], hasBinder, env)
        == Ok(Scan([LeftDelimiter] + first, "", true, true, []));
  }

  lemma ScanNested(first: string, key: string, hasBinder: bool, env: C.Env)
    requires LeftDelimiter !in first && RightDelimiter !in first
    requires LeftDelimiter !in key && RightDelimiter !in key
    requires env.lookup(key).Ok?
    ensures ScanAll(Start, [LeftDelimiter] + first + [LeftDelimiter] + key + [RightDelimiter], hasBinder, env)
         == Ok(Scan([LeftDelimiter] + first + ToText(env.heap, env.lookup(key).value), "", false, true,
                    KeyCalls(key, hasBinder)))
  {
    var opening := [LeftDelimiter] + first + [LeftDelimiter];
    var closing := key + [RightDelimiter];
    assert [LeftDelimiter] + first + [LeftDelimiter] + key + [RightDelimiter] == opening + closing;
    var restarted := Scan([LeftDelimiter] + first, "", true, true, []);
    ScanOpening(first, hasBinder, env);
    ScanAllJoin(Start, opening, closing, hasBinder, env);
    ScanAllJoin(restarted, key, [RightDelimiter], hasBinder, env);
    ScanKey(restarted, key, hasBinder, env);
    assert "" + key == key;
    var v := env.lookup(key).value;
    assert [RightDelimiter][1..] == [];
    assert ScanAll(restarted.(key := key), [RightDelimiter], hasBinder, env)
        == Substitute(restarted.(key := key), hasBinder, env);
    assert [] + [C.Read(key)] + (if hasBinder then [C.Registered(key)] else []) == KeyCalls(key, hasBinder);
  }

  lemma NestedOpen(first: string, key: string, hasBinder: bool, env: C.Env, fuel: nat)
    requires LeftDelimiter !in first && RightDelimiter !in first
    requires LeftDelimiter !in key && RightDelimiter !in key
    requires env.lookup(key).Ok?
    ensures Render([LeftDelimiter] + first + [LeftDelimiter] + key + [RightDelimiter], hasBinder, env, 0) == Exhausted
    ensures var text := [LeftDelimiter] + first + ToText(env.heap, env.lookup(key).value);
      Render([LeftDelimiter] + first + [LeftDelimiter] + key + [RightDelimiter], hasBinder, env, fuel + 1)
        == match Render(text, hasBinder, env, fuel)
           case Rendered(t, calls) => Rendered(t, KeyCalls(key, hasBinder) + calls)
           case other => other
  {
    ScanNested(first, key, hasBinder, env);
  }

  /**
   * The re-parse need not end: under a key `a` holding the text `{a}`, the
   * template `{{a}` renders to `{{a}` again, so the source recurses until the
   * stack runs out, and no number of re-parses is enough.
   */
  lemma {:induction false} SelfFeeding(template: string, hasBinder: bool, env: C.Env, fuel: nat)
    requires template == "{{a}"
    requires env.lookup("a") == Ok(Str("{a}"))
    ensures Render(template, hasBinder, env, fuel) == Exhausted
    decreases fuel
  {
    assert template == [LeftDelimiter] + "" + [LeftDelimiter] + "a" + [RightDelimiter];
    assert [LeftDelimiter] + "" + ToText(env.heap, Str("{a}")) == template;
    NestedOpen("", "a", hasBinder, env, if fuel == 0 then 0 else fuel - 1);
    if fuel > 0 {
      SelfFeeding(template, hasBinder, env, fuel - 1);
    }
  }

  /**
   * Whether scanning `s`, from a state with a key open or not, meets a `{` while a
   * key is open: the condition for a re-parse, stated on the text alone.
   */
  predicate Nests(s: string, open: bool)
    decreases |s|
  {
    s != [] &&
    ((s[0] == LeftDelimiter && open)
     || Nests(s[1..], if s[0] == LeftDelimiter then true else if s[0] == RightDelimiter then false else open))
  }

  lemma {:induction false} ScanRecursive(sc: Scan, s: string, hasBinder: bool, env: C.Env)
    ensures ScanAll(sc, s, hasBinder, env).Ok? ==>
      ScanAll(sc, s, hasBinder, env).value.recursive == (sc.recursive || Nests(s, sc.open))
    decreases |s|
  {
    if s != [] {
      match Step(sc, s[0], hasBinder, env)
      case Fault =>
      case Ok(next) =>
        ScanRecursive(next, s[1..], hasBinder, env);
    }
  }

  /**
   * A scan that leaves no key open is parsed again exactly when it met a nested
   * `{`; without one (a plain substitution, say) the result is final, whatever
   * the substituted values contain.
   */
  lemma ReparseExactlyWhenNested(template: string, hasBinder: bool, env: C.Env, fuel: nat)
    requires ScanAll(Start, template, hasBinder, env).Ok? && !ScanAll(Start, template, hasBinder, env).value.open
    ensures Render(template, hasBinder, env, 0).Exhausted? <==> Nests(template, false)
    ensures !Nests(template, false) ==> Render(template, hasBinder, env, fuel) == Render(template, hasBinder, env, 0)
  {
    ScanRecursive(Start, template, hasBinder, env);
  }
}
