/**
  One pass of the converter over a schema, for one path.

  The path library first collects every match of the path in the schema;
  the converter then rewrites each match through its parent: a member of
  an object is replaced by its processed value, an element of a list is
  replaced by its processed value or, when that value is a list, by the
  elements of that list. Matches at the same list are collected before any
  of them is rewritten, so they carry the indices the list had before the
  first splice: after a splice those indices point at other elements, and
  past the end of a list that shrank they raise `IndexError`.

  Matches below different members or elements of a container lie in
  disjoint parts of the tree, so the pass is a descent along the path that
  rewrites the containers of the last segment.
*/
module Rewrite {
  import opened Wrappers
  import opened Json
  import opened JsonPath
  import Markup
  import Transform

  type Variant = Transform.Variant

  // ---------------------------------------------------------------------
  // Rewriting one match

  /** `process_context_dict`: the member under `key` is replaced by its processed value. */
  function ContextDict(variant: Variant, fields: seq<(string, Value)>, key: string): (r: Result<seq<(string, Value)>>)
    ensures key !in Keys(fields) ==> r == Err(KeyError)
    ensures key in Keys(fields) ==> (r.Ok? <==> Transform.ProcessItem(variant, Get(fields, key).value).Ok?)
    ensures r.Ok? ==> Keys(r.value) == Keys(fields)
    ensures r.Ok? ==> Get(r.value, key) == Some(Transform.ProcessItem(variant, Get(fields, key).value).value)
    ensures r.Ok? ==> forall k :: k != key ==> Get(r.value, k) == Get(fields, k)
  {
    match Get(fields, key)
    case None => Err(KeyError)
    case Some(v) =>
      match Transform.ProcessItem(variant, v)
      case Err(e) => Err(e)
      case Ok(x) =>
        AssignFrame(fields, key, x);
        Ok(Assign(fields, key, x))
  }

  /** What a processed element is spliced in as: the elements of a list, or the value itself. */
  function Spliced(x: Value): (r: seq<Value>)
    ensures x.Arr? ==> r == x.items
    ensures !x.Arr? ==> r == [x]
  {
    if x.Arr? then x.items else [x]
  }

  /** The processing a match receives: `process_item` in the converter, `process_element` in the service. */
  function Processor(variant: Variant): Value -> Result<Value>
  {
    v => Transform.ProcessItem(variant, v)
  }

  /**
    `process_context_list`: the element at `index` is processed and replaced
    by what it yields, spliced in when that is a list; an index past the end
    raises.
  */
  function ContextList(process: Value -> Result<Value>, items: seq<Value>, index: nat): (r: Result<seq<Value>>)
    ensures index >= |items| ==> r == Err(IndexError)
    ensures index < |items| ==> (r.Ok? <==> process(items[index]).Ok?)
  {
    if index >= |items| then Err(IndexError)
    else
      match process(items[index])
      case Err(e) => Err(e)
      case Ok(x) => Ok(items[..index] + Spliced(x) + items[index + 1..])
  }

  /**
    What `process_context_list` leaves: the elements before `index`, then
    what the element at `index` yields (its elements, when it is a list),
    then the elements after `index`.
  */
  lemma ContextListSplices(process: Value -> Result<Value>, items: seq<Value>, index: nat)
    requires index < |items| && process(items[index]).Ok?
    ensures var r := ContextList(process, items, index);
            var ins := Spliced(process(items[index]).value);
            && r.Ok?
            && |r.value| == |items| - 1 + |ins|
            && r.value[..index] == items[..index]
            && r.value[index..index + |ins|] == ins
            && r.value[index + |ins|..] == items[index + 1..]
  {
    var ins := Spliced(process(items[index]).value);
    SpliceShape(items[..index], ins, items[index + 1..]);
  }

  lemma SpliceShape(pre: seq<Value>, ins: seq<Value>, post: seq<Value>)
    ensures var out := pre + ins + post;
            && out[..|pre|] == pre
            && out[|pre|..|pre| + |ins|] == ins
            && out[|pre| + |ins|..] == post
  {
  }

  // ---------------------------------------------------------------------
  // Rewriting the matches at one container

  /**
    The matches `index, ..., count - 1` at one list, taken in order, each
    rewritten at its original index in the list as it stands by then.
  */
  function IndexSites(process: Value -> Result<Value>, items: seq<Value>, index: nat, count: nat): (r: Result<seq<Value>>)
    ensures index < count && |items| <= index ==> r == Err(IndexError)
    ensures r.Ok? && index <= |items| ==> index <= |r.value| && r.value[..index] == items[..index]
    decreases count - index
  {
    if index >= count then Ok(items)
    else
      match ContextList(process, items, index)
      case Err(e) => Err(e)
      case Ok(xs) =>
        assert xs[..index] == items[..index] && index <= |xs| by {
          SpliceShape(items[..index], Spliced(process(items[index]).value), items[index + 1..]);
        }
        var r := IndexSites(process, xs, index + 1, count);
        assert r.Ok? && index + 1 <= |xs| ==> r.value[..index] == r.value[..index + 1][..index];
        r
  }

  /**
    The matches at one object for the members `keys`, in order. The
    schema service skips a match whose key is empty (`if ... and key`).
  */
  function FieldSites(variant: Variant, fields: seq<(string, Value)>, keys: seq<string>): (r: Result<seq<(string, Value)>>)
    requires forall i :: 0 <= i < |keys| ==> keys[i] in Keys(fields)
    ensures r.Ok? ==> Keys(r.value) == Keys(fields)
    decreases |keys|
  {
    if keys == [] then Ok(fields)
    else
      assert forall i :: 0 <= i < |keys[1..]| ==> keys[1..][i] == keys[i + 1];
      if variant.Helper? && keys[0] == "" then FieldSites(variant, fields, keys[1..])
      else
        var here := ContextDict(variant, fields, keys[0]);
        if here.Err? then Err(here.error)
        else
          assert Keys(here.value) == Keys(fields);
          FieldSites(variant, here.value, keys[1..])
  }

  // ---------------------------------------------------------------------
  // The descent along a path

  /** Values of the same kind; a pass never turns an object into a list or back. */
  predicate SameShape(v: Value, w: Value)
  {
    && (v.Obj? <==> w.Obj?)
    && (v.Arr? <==> w.Arr?)
    && (v.Obj? ==> Keys(v.fields) == Keys(w.fields))
    && (!v.Obj? && !v.Arr? ==> v == w)
  }

  /**
    The schema after the matches of `segs` below `v` have been rewritten:
    the matches of the last segment are rewritten at their containers, the
    earlier segments select the containers. The bare root path `$` matches
    the schema itself, which has no parent: reading the parent of that
    match raises AttributeError.
  */
  function Pass(variant: Variant, v: Value, segs: seq<Segment>): (r: Result<Value>)
    ensures r.Ok? ==> SameShape(v, r.value)
    ensures segs == [] ==> r == Err(AttributeError)
    decreases |segs|, 2
  {
    if segs == [] then Err(AttributeError)
    else if |segs| == 1 then Final(variant, v, segs[0])
    else Descend(variant, v, segs[0], segs[1..])
  }

  /**
    The matches of a last segment `seg` in `v`: the member `.name` of an
    object, every member `.*` of an object, every element `[*]` of a list.
    A `[*]` on a non-empty object, a non-zero number, `true` or a
    non-empty string matches that value inside a temporary list the path
    library builds: it is processed, so its errors are raised, but the
    result goes into the temporary list and the schema is left as it was.
    A `[*]` on an empty or false value matches nothing.
  */
  function Final(variant: Variant, v: Value, seg: Segment): (r: Result<Value>)
    ensures r.Ok? ==> SameShape(v, r.value)
  {
    match seg
    case Field(n) =>
      if v.Obj? && n in Keys(v.fields) then
        match FieldSites(variant, v.fields, [n])
        case Err(e) => Err(e)
        case Ok(fs) => Ok(Obj(fs))
      else Ok(v)
    case AllFields =>
      if v.Obj? then
        match FieldSites(variant, v.fields, Keys(v.fields))
        case Err(e) => Err(e)
        case Ok(fs) => Ok(Obj(fs))
      else Ok(v)
    case AllItems =>
      if v.Arr? then
        match IndexSites(Processor(variant), v.items, 0, |v.items|)
        case Err(e) => Err(e)
        case Ok(xs) => Ok(Arr(xs))
      else if Truthy(v) then
        match Transform.ProcessItem(variant, v)
        case Err(e) => Err(e)
        case Ok(_) => Ok(v)
      else Ok(v)
  }

  /**
    The descent through a segment `seg` that is followed by `rest`:
    - `.name` descends into that member of an object, when present;
    - `.*` descends into every member of an object;
    - `[*]` descends into every element of a list and, as the path library
      treats any other non-empty or non-zero value as a list holding only
      itself, into that value itself.
  */
  function Descend(variant: Variant, v: Value, seg: Segment, rest: seq<Segment>): (r: Result<Value>)
    ensures r.Ok? ==> SameShape(v, r.value)
    decreases |rest| + 1, 1
  {
    match seg
    case Field(n) =>
      if v.Obj? && n in Keys(v.fields) then
        match Pass(variant, Get(v.fields, n).value, rest)
        case Err(e) => Err(e)
        case Ok(w) => Ok(Obj(Assign(v.fields, n, w)))
      else Ok(v)
    case AllFields =>
      if v.Obj? then
        match PassFields(variant, v.fields, rest)
        case Err(e) => Err(e)
        case Ok(fs) => Ok(Obj(fs))
      else Ok(v)
    case AllItems =>
      if v.Arr? then
        match PassItems(variant, v.items, rest)
        case Err(e) => Err(e)
        case Ok(xs) => Ok(Arr(xs))
      else if Truthy(v) then Pass(variant, v, rest)
      else Ok(v)
  }

  /** The descent into every member of an object. */
  function PassFields(variant: Variant, fields: seq<(string, Value)>, rest: seq<Segment>): (r: Result<seq<(string, Value)>>)
    ensures r.Ok? ==> Keys(r.value) == Keys(fields)
    decreases |rest| + 1, 0, |fields|
  {
    if fields == [] then Ok([])
    else
      match Pass(variant, fields[0].1, rest)
      case Err(e) => Err(e)
      case Ok(w) =>
        match PassFields(variant, fields[1..], rest)
        case Err(e) => Err(e)
        case Ok(fs) =>
          assert fields == [fields[0]] + fields[1..];
          KeysCons(fields[0], fields[1..]);
          KeysCons((fields[0].0, w), fs);
          Ok([(fields[0].0, w)] + fs)
  }

  /** The descent into every element of a list. */
  function PassItems(variant: Variant, items: seq<Value>, rest: seq<Segment>): (r: Result<seq<Value>>)
    ensures r.Ok? ==> |r.value| == |items|
    decreases |rest| + 1, 0, |items|
  {
    if items == [] then Ok([])
    else
      match Pass(variant, items[0], rest)
      case Err(e) => Err(e)
      case Ok(w) =>
        match PassItems(variant, items[1..], rest)
        case Err(e) => Err(e)
        case Ok(xs) => Ok([w] + xs)
  }

  /** The passes of `paths`, one after the other, each over the result of the previous one. */
  function Convert(variant: Variant, v: Value, paths: seq<seq<Segment>>): (r: Result<Value>)
    ensures r.Ok? ==> SameShape(v, r.value)
    decreases |paths|
  {
    if paths == [] then Ok(v)
    else
      match Pass(variant, v, paths[0])
      case Err(e) => Err(e)
      case Ok(w) => Convert(variant, w, paths[1..])
  }

  /** A catalogue holding the bare root path fails there, whatever the schema. */
  lemma {:induction false} RootPathFails(variant: Variant, v: Value, p: seq<seq<Segment>>, q: seq<seq<Segment>>)
    ensures Convert(variant, v, p + [[]] + q).Err?
    ensures Convert(variant, v, p).Ok? ==> Convert(variant, v, p + [[]] + q) == Err(AttributeError)
    decreases |p|
  {
    if p == [] {
      assert p + [[]] + q == [[]] + q;
    } else {
      assert (p + [[]] + q)[0] == p[0] && (p + [[]] + q)[1..] == p[1..] + [[]] + q;
      match Pass(variant, v, p[0])
      case Err(_) =>
      case Ok(w) => RootPathFails(variant, w, p[1..], q);
    }
  }

  /** Converting with one catalogue and then another is converting with the two joined. */
  lemma {:induction false} ConvertAppend(variant: Variant, v: Value, p: seq<seq<Segment>>, q: seq<seq<Segment>>)
    ensures Convert(variant, v, p + q) == match Convert(variant, v, p)
                                         case Err(e) => Err(e)
                                         case Ok(w) => Convert(variant, w, q)
    decreases |p|
  {
    if p == [] {
      assert p + q == q;
    } else {
      assert (p + q)[0] == p[0];
      assert (p + q)[1..] == p[1..] + q;
      match Pass(variant, v, p[0])
      case Err(e) =>
      case Ok(w) => ConvertAppend(variant, w, p[1..], q);
    }
  }

  // ---------------------------------------------------------------------
  // Matches in a list

  /**
    When no element of the matched range expands, the indices never go
    stale: each element of the range is replaced by its processed value
    `ys[j]` and every other element is kept.
  */
  lemma {:induction false} IndexSitesInPlace(process: Value -> Result<Value>, items: seq<Value>, index: nat, count: nat, ys: seq<Value>)
    requires index <= count <= |items| == |ys|
    requires forall j :: index <= j < count ==> process(items[j]) == Ok(ys[j]) && !ys[j].Arr?
    ensures IndexSites(process, items, index, count) == Ok(items[..index] + ys[index..count] + items[count..])
    decreases count - index
  {
    if index < count {
      var xs := items[index := ys[index]];
      calc {
        IndexSites(process, items, index, count);
        { IndexSitesAt(process, items, index, count, ys[index]);
          assert items[..index] + Spliced(ys[index]) + items[index + 1..] == xs; }
        IndexSites(process, xs, index + 1, count);
        { assert forall j :: index < j < count ==> xs[j] == items[j];
          IndexSitesInPlace(process, xs, index + 1, count, ys); }
        Ok(xs[..index + 1] + ys[index + 1..count] + xs[count..]);
        { SpliceOne(items, ys, index, count); }
        Ok(items[..index] + ys[index..count] + items[count..]);
      }
    } else {
      assert items[..index] + ys[index..count] + items[count..] == items;
    }
  }

  lemma SpliceOne(items: seq<Value>, ys: seq<Value>, index: nat, count: nat)
    requires index < count <= |items| == |ys|
    ensures items[index := ys[index]][..index + 1] + ys[index + 1..count] + items[index := ys[index]][count..]
            == items[..index] + ys[index..count] + items[count..]
  {
    var xs := items[index := ys[index]];
    assert xs[..index + 1] == items[..index] + [ys[index]];
    assert ys[index..count] == [ys[index]] + ys[index + 1..count];
    assert xs[count..] == items[count..];
  }

  /** The match at `index` splices in what the element there yields; the next match takes `index + 1`. */
  lemma IndexSitesAt(process: Value -> Result<Value>, items: seq<Value>, index: nat, count: nat, x: Value)
    requires index < count && index < |items| && process(items[index]) == Ok(x)
    ensures IndexSites(process, items, index, count)
            == IndexSites(process, items[..index] + Spliced(x) + items[index + 1..], index + 1, count)
  {
  }

  lemma IndexSitesDone(process: Value -> Result<Value>, items: seq<Value>, count: nat)
    ensures IndexSites(process, items, count, count) == Ok(items)
  {
  }

  /**
    After a splice the later indices are stale. Among the matches `k` and
    `k + 1` of a list, an element at `k` that expands to `a, b`: `a, b` take
    the places `k` and `k + 1`, the match `k + 1` rewrites `b` again, and
    the element that was at `k + 1` is kept unprocessed.
  */
  lemma SpliceThenStale(process: Value -> Result<Value>, items: seq<Value>, k: nat, a: Value, b: Value)
    requires k + 1 < |items| && process(items[k]) == Ok(Arr([a, b]))
    requires process(b) == Ok(b) && !b.Arr?
    ensures IndexSites(process, items, k, k + 2) == Ok(items[..k] + [a, b] + items[k + 1..])
  {
    var xs := items[..k] + [a, b] + items[k + 1..];
    assert Spliced(Arr([a, b])) == [a, b];
    IndexSitesAt(process, items, k, k + 2, Arr([a, b]));
    StaleShape(items, k, a, b);
    IndexSitesAt(process, xs, k + 1, k + 2, b);
    IndexSitesDone(process, xs, k + 2);
  }

  lemma StaleShape(items: seq<Value>, k: nat, a: Value, b: Value)
    requires k < |items|
    ensures var xs := items[..k] + [a, b] + items[k + 1..];
            && k + 1 < |xs| && xs[k + 1] == b
            && xs[..k + 1] + [b] + xs[k + 2..] == xs
  {
  }

  /**
    The stale index with the converter's processing: a text of two plain
    paragraphs at match `k`, followed by the match `k + 1`, gives the two
    paragraphs and leaves the element that was at `k + 1` unprocessed.
  */
  lemma StaleIndex(variant: Variant, ps: seq<string>, items: seq<Value>, k: nat)
    requires |ps| == 2 && k + 1 < |items| && items[k] == Str(Markup.Wrap(ps))
    requires forall i :: 0 <= i < 2 ==> ps[i] != [] && Markup.Trimmed(ps[i]) && Markup.NoTagStart(ps[i])
    ensures IndexSites(Processor(variant), items, k, k + 2)
            == Ok(items[..k] + [Str(ps[0]), Str(ps[1])] + items[k + 1..])
  {
    WrappedPair(variant, ps);
    PlainItem(variant, ps[1]);
    SpliceThenStale(Processor(variant), items, k, Str(ps[0]), Str(ps[1]));
  }

  lemma WrappedPair(variant: Variant, ps: seq<string>)
    requires |ps| == 2
    requires forall i :: 0 <= i < 2 ==> ps[i] != [] && Markup.Trimmed(ps[i]) && Markup.NoTagStart(ps[i])
    ensures Transform.ProcessItem(variant, Str(Markup.Wrap(ps))) == Ok(Arr([Str(ps[0]), Str(ps[1])]))
  {
    Transform.ProcessStringWrap(variant, ps);
    assert Transform.Strs(ps) == [Str(ps[0]), Str(ps[1])];
  }

  lemma PlainItem(variant: Variant, p: string)
    requires Markup.Trimmed(p) && Markup.NoTagStart(p)
    ensures Transform.ProcessItem(variant, Str(p)) == Ok(Str(p))
  {
    Transform.PlainParagraph(variant, p);
    Markup.TagFreeHasNoParagraph(p, true);
  }

  /**
    A list can also shrink: an empty nested list is spliced in as nothing,
    so the match that follows it indexes past the end.
  */
  lemma ShrinkIndexError(variant: Variant, y: Value)
    ensures IndexSites(Processor(variant), [Arr([]), y], 0, 2) == Err(IndexError)
  {
    assert Transform.ProcessList(variant, []) == Ok([]);
    assert [Arr([]), y][..0] + Spliced(Arr([])) + [Arr([]), y][1..] == [y];
    assert ContextList(Processor(variant), [Arr([]), y], 0) == Ok([y]);
  }

  // ---------------------------------------------------------------------
  // Matches in an object

  /**
    Rewriting the members of `b` one after another, in a dictionary that
    holds `a` before them, processes each of those members where it stands.
  */
  lemma {:induction false} FieldSitesSuffix(variant: Variant, a: seq<(string, Value)>, b: seq<(string, Value)>)
    requires UniqueKeys(a + b)
    requires variant.V10? || "" !in Keys(b)
    ensures forall i :: 0 <= i < |Keys(b)| ==> Keys(b)[i] in Keys(a + b)
    ensures FieldSites(variant, a + b, Keys(b)) == Prepend(a, Transform.ProcessFields(variant, b))
    decreases |b|
  {
    KeysSuffix(a, b);
    if b == [] {
      assert a + b == a;
    } else {
      var m := b[0];
      var b' := b[1..];
      assert a + b == a + [m] + b';
      assert Keys(b) == [m.0] + Keys(b');
      assert variant.V10? || m.0 != "";
      assert "" !in Keys(b') || variant.V10? by {
        assert forall i :: 0 <= i < |Keys(b')| ==> Keys(b')[i] == Keys(b)[i + 1];
      }
      KeysSuffix(a + [m], b');
      match Transform.ProcessItem(variant, m.1)
      case Err(e) =>
        ContextDictInPlace(variant, a, m, b');
      case Ok(x) =>
        var a' := a + [(m.0, x)];
        calc {
          FieldSites(variant, a + b, Keys(b));
          { ContextDictInPlace(variant, a, m, b');
            assert a + [(m.0, x)] + b' == a' + b'; }
          FieldSites(variant, a' + b', Keys(b'));
          { assert UniqueKeys(a' + b') by { UniqueKeysReplace(a, m, b', x); }
            FieldSitesSuffix(variant, a', b'); }
          Prepend(a', Transform.ProcessFields(variant, b'));
          { PrependTwice(a, [(m.0, x)], Transform.ProcessFields(variant, b')); }
          Prepend(a, Transform.ProcessFields(variant, b));
        }
    }
  }

  lemma KeysSuffix(a: seq<(string, Value)>, b: seq<(string, Value)>)
    ensures forall i :: 0 <= i < |Keys(b)| ==> Keys(b)[i] in Keys(a + b)
  {
    forall i | 0 <= i < |Keys(b)| ensures Keys(b)[i] in Keys(a + b) {
      assert (a + b)[|a| + i] == b[i];
      assert Keys(a + b)[|a| + i] == Keys(b)[i];
    }
  }

  lemma UniqueKeysReplace(a: seq<(string, Value)>, m: (string, Value), b: seq<(string, Value)>, x: Value)
    requires UniqueKeys(a + [m] + b)
    ensures UniqueKeys(a + [(m.0, x)] + b)
  {
    var f := a + [m] + b;
    var g := a + [(m.0, x)] + b;
    assert forall i :: 0 <= i < |g| ==> g[i].0 == f[i].0;
  }

  /** Rewriting a member of a dictionary with unique keys rewrites it where it stands. */
  lemma ContextDictInPlace(variant: Variant, a: seq<(string, Value)>, m: (string, Value), b: seq<(string, Value)>)
    requires UniqueKeys(a + [m] + b)
    ensures ContextDict(variant, a + [m] + b, m.0) == match Transform.ProcessItem(variant, m.1)
                                                      case Err(e) => Err(e)
                                                      case Ok(x) => Ok(a + [(m.0, x)] + b)
  {
    AssignInPlace(a, m, b, m.1);
    if Transform.ProcessItem(variant, m.1).Ok? {
      AssignInPlace(a, m, b, Transform.ProcessItem(variant, m.1).value);
    }
  }

  /**
    A final `.*` on an object processes every member exactly as processing
    the object value by value would (the helper service skips an empty
    key, so there the object must not have one).
  */
  lemma FieldSitesAll(variant: Variant, fields: seq<(string, Value)>)
    requires UniqueKeys(fields)
    requires variant.V10? || "" !in Keys(fields)
    ensures Final(variant, Obj(fields), AllFields) == match Transform.ProcessFields(variant, fields)
                                                     case Err(e) => Err(e)
                                                     case Ok(fs) => Ok(Obj(fs))
  {
    assert [] + fields == fields;
    FieldSitesSuffix(variant, [], fields);
    PrependNothing(Transform.ProcessFields(variant, fields));
  }

  /**
    A final `.name` on an object holding that member is one
    `process_context_dict` on it: the member is replaced by its processed
    value and every other member is kept.
  */
  lemma PassField(variant: Variant, fields: seq<(string, Value)>, n: string)
    requires n in Keys(fields)
    requires variant.V10? || n != ""
    ensures Pass(variant, Obj(fields), [Field(n)]) == match ContextDict(variant, fields, n)
                                                       case Err(e) => Err(e)
                                                       case Ok(fs) => Ok(Obj(fs))
  {
    assert [n][1..] == [];
    match ContextDict(variant, fields, n)
    case Err(e) =>
    case Ok(fs) =>
      assert FieldSites(variant, fs, []) == Ok(fs);
  }
}
