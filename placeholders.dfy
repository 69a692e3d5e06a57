/**
  Attaching placeholder definitions to the paragraphs of a text block.

  A text block is a dictionary with a `text` holding `<p>` paragraphs and a
  `placeholders` list of definitions `{"placeholder": name, ...}`. Each
  paragraph is sanitised; the `{name}` tokens in it are counted (a
  `collections.Counter`: distinct names in order of first occurrence, each
  with its number of occurrences); for every name, the LAST definition
  whose `placeholder` is that name is attached as many times as the name
  occurs. A paragraph with no attached definition becomes a bare string.
*/
module Placeholders {
  import opened Wrappers
  import opened Json
  import Markup

  // ---------------------------------------------------------------------
  // Counter

  /** How often `n` occurs in `names`. */
  function Occurrences(names: seq<string>, n: string): (c: nat)
    ensures c <= |names|
    ensures c > 0 <==> n in names
  {
    if names == [] then 0
    else
      assert names == [names[0]] + names[1..];
      (if names[0] == n then 1 else 0) + Occurrences(names[1..], n)
  }

  /** The distinct names, each where it first occurs. */
  function Distinct(names: seq<string>): (d: seq<string>)
    ensures forall n :: n in d <==> n in names
    ensures forall i, j :: 0 <= i < j < |d| ==> d[i] != d[j]
  {
    if names == [] then []
    else
      var init := names[..|names| - 1];
      var last := names[|names| - 1];
      assert names == init + [last];
      var d := Distinct(init);
      if last in d then d else d + [last]
  }

  /** The position of the first occurrence of `n` in `names`. */
  function FirstIndex(names: seq<string>, n: string): (i: nat)
    requires n in names
    ensures i < |names| && names[i] == n
    ensures forall j :: 0 <= j < i ==> names[j] != n
  {
    if names[0] == n then 0
    else
      assert names == [names[0]] + names[1..];
      1 + FirstIndex(names[1..], n)
  }

  lemma FirstIndexPrefix(names: seq<string>, k: nat, n: string)
    requires k <= |names| && n in names[..k]
    ensures FirstIndex(names, n) == FirstIndex(names[..k], n)
  {
    var i := FirstIndex(names[..k], n);
    var j := FirstIndex(names, n);
    assert names[..k][i] == names[i];
    assert j <= i;
    assert names[..k][j] == names[j];
  }

  /** `Counter` keeps its keys in the order in which they first occur. */
  lemma {:induction false} DistinctInFirstOccurrenceOrder(names: seq<string>)
    ensures forall i, j :: 0 <= i < j < |Distinct(names)| ==>
              FirstIndex(names, Distinct(names)[i]) < FirstIndex(names, Distinct(names)[j])
  {
    if names != [] {
      var init := names[..|names| - 1];
      var last := names[|names| - 1];
      assert names == init + [last];
      DistinctInFirstOccurrenceOrder(init);
      var d := Distinct(init);
      forall x | x in d
        ensures FirstIndex(names, x) == FirstIndex(init, x) < |init|
      {
        assert names[..|init|] == init;
        FirstIndexPrefix(names, |init|, x);
      }
      if last in d {
        forall i, j | 0 <= i < j < |d|
          ensures FirstIndex(names, d[i]) < FirstIndex(names, d[j])
        {
          assert d[i] in d && d[j] in d;
          assert FirstIndex(init, d[i]) < FirstIndex(init, d[j]);
        }
      } else {
        assert FirstIndex(names, last) == |init|;
        var d' := d + [last];
        forall i, j | 0 <= i < j < |d'|
          ensures FirstIndex(names, d'[i]) < FirstIndex(names, d'[j])
        {
          assert d'[i] == d[i] && d[i] in d;
          if j < |d| {
            assert d'[j] == d[j] && d[j] in d;
            assert FirstIndex(init, d[i]) < FirstIndex(init, d[j]);
          } else {
            assert d'[j] == last;
          }
        }
      }
    }
  }

  /** `Counter(names).items()`. */
  function Tally(names: seq<string>): seq<(string, nat)>
  {
    var d := Distinct(names);
    seq(|d|, i requires 0 <= i < |d| => (d[i], Occurrences(names, d[i])))
  }

  // ---------------------------------------------------------------------
  // Looking definitions up

  /** The elements `for x in v` visits: list items, the characters of a string, the keys of a dict. */
  function Iterate(v: Value): (r: Result<seq<Value>>)
    ensures r.Err? <==> v.Num? || v.Bool? || v.Null?
    ensures r.Err? ==> r.error == TypeError
    ensures v.Arr? ==> r == Ok(v.items)
    ensures v.Str? ==> r.Ok? && |r.value| == |v.s| && forall x :: x in r.value ==> !x.Obj?
    ensures v.Obj? ==> r.Ok? && |r.value| == |v.fields| && forall x :: x in r.value ==> !x.Obj?
  {
    match v
    case Arr(items) => Ok(items)
    case Str(s) => Ok(seq(|s|, i requires 0 <= i < |s| => Str([s[i]])))
    case Obj(fields) => Ok(seq(|fields|, i requires 0 <= i < |fields| => Str(fields[i].0)))
    case _ => Err(TypeError)
  }

  /** `d.get("placeholder", None) == name`. */
  predicate Defines(d: Value, name: string)
  {
    d.Obj? && Get(d.fields, "placeholder") == Some(Str(name))
  }

  predicate AllObjects(defs: seq<Value>)
  {
    forall i :: 0 <= i < |defs| ==> defs[i].Obj?
  }

  /**
    The definition the inner loop settles on: every element is asked for
    its `placeholder` (an element that is not a dictionary has no `get` and
    raises AttributeError), and a later match replaces an earlier one.
  */
  function LastDefinition(defs: seq<Value>, name: string): (r: Result<Option<Value>>)
    ensures r.Err? <==> !AllObjects(defs)
    ensures r.Err? ==> r.error == AttributeError
    ensures r.Ok? && r.value.Some? ==> Defines(r.value.value, name)
  {
    if defs == [] then Ok(None)
    else if !defs[0].Obj? then Err(AttributeError)
    else
      match LastDefinition(defs[1..], name)
      case Err(e) => Err(e)
      case Ok(Some(d)) => Ok(Some(d))
      case Ok(None) => if Defines(defs[0], name) then Ok(Some(defs[0])) else Ok(None)
  }

  /**
    The definition chosen is the last element of the list that defines
    the name; no definition is chosen only when no element defines it.
  */
  lemma {:induction false} LastDefinitionIsLast(defs: seq<Value>, name: string)
    requires AllObjects(defs)
    ensures var r := LastDefinition(defs, name);
            r.value.Some? ==> exists i :: 0 <= i < |defs| && defs[i] == r.value.value
                                          && forall j :: i < j < |defs| ==> !Defines(defs[j], name)
    ensures LastDefinition(defs, name).value.None? <==> forall i :: 0 <= i < |defs| ==> !Defines(defs[i], name)
  {
    if defs != [] {
      assert AllObjects(defs[1..]) by {
        forall i | 0 <= i < |defs[1..]| ensures defs[1..][i].Obj? { assert defs[1..][i] == defs[i + 1]; }
      }
      LastDefinitionIsLast(defs[1..], name);
      assert forall i :: 1 <= i < |defs| ==> defs[i] == defs[1..][i - 1];
      var rest := LastDefinition(defs[1..], name);
      if rest.value.Some? {
        var i :| 0 <= i < |defs[1..]| && defs[1..][i] == rest.value.value
                 && forall j :: i < j < |defs[1..]| ==> !Defines(defs[1..][j], name);
        assert defs[i + 1] == rest.value.value;
      }
    }
  }

  /** What is known after the first elements: `found` so far, unless a later element decides. */
  function Settle(found: Option<Value>, later: Result<Option<Value>>): Result<Option<Value>>
  {
    match later
    case Err(e) => Err(e)
    case Ok(Some(d)) => Ok(Some(d))
    case Ok(None) => Ok(found)
  }

  /** The inner loop: scan every definition, keep the last one that matches. */
  method FindLastDefinition(defs: seq<Value>, name: string) returns (r: Result<Option<Value>>)
    ensures r == LastDefinition(defs, name)
  {
    var found: Option<Value> := None;
    var j := 0;
    assert defs[j..] == defs;
    while j < |defs|
      invariant 0 <= j <= |defs|
      invariant LastDefinition(defs, name) == Settle(found, LastDefinition(defs[j..], name))
    {
      var d := defs[j];
      assert defs[j..][0] == d && defs[j..][1..] == defs[j + 1..];
      if !d.Obj? {
        return Err(AttributeError);
      }
      if Defines(d, name) {
        found := Some(d);
      }
      j := j + 1;
    }
    assert defs[j..] == [];
    return Ok(found);
  }

  /** `count` copies of `d`. */
  function Copies(d: Value, count: nat): (r: seq<Value>)
    ensures |r| == count && forall x :: x in r ==> x == d
  {
    seq(count, _ => d)
  }

  /**
    The definitions attached to one paragraph: for each counted name, in
    order, `count` copies of its last definition, or nothing when it has
    none.
  */
  function Attachments(t: seq<(string, nat)>, defs: seq<Value>): (r: Result<seq<Value>>)
    ensures t != [] ==> (r.Err? <==> !AllObjects(defs))
    ensures t == [] ==> r == Ok([])
  {
    if t == [] then Ok([])
    else
      match LastDefinition(defs, t[0].0)
      case Err(e) => Err(e)
      case Ok(found) =>
        var here := if found.Some? then Copies(found.value, t[0].1) else [];
        match Attachments(t[1..], defs)
        case Err(e) => Err(e)
        case Ok(rest) => Ok(here + rest)
  }

  /** The loop over the counted names, extending the attached definitions name by name. */
  method AttachDefinitions(t: seq<(string, nat)>, defs: seq<Value>) returns (r: Result<seq<Value>>)
    ensures r == Attachments(t, defs)
  {
    var matching: seq<Value> := [];
    var k := 0;
    assert t[k..] == t;
    PrependNothing(Attachments(t, defs));
    while k < |t|
      invariant 0 <= k <= |t|
      invariant Attachments(t, defs) == Prepend(matching, Attachments(t[k..], defs))
    {
      assert t[k..][0] == t[k] && t[k..][1..] == t[k + 1..];
      var found := FindLastDefinition(defs, t[k].0);
      if found.Err? {
        assert Attachments(t[k..], defs) == Err(found.error);
        return Err(found.error);
      }
      var here := if found.value.Some? then Copies(found.value.value, t[k].1) else [];
      match Attachments(t[k + 1..], defs)
      case Err(_) =>
      case Ok(rest) => assert (matching + here) + rest == matching + (here + rest);
      matching := matching + here;
      k := k + 1;
    }
    assert t[k..] == [];
    assert matching + [] == matching;
    return Ok(matching);
  }

  /** How many of `att` define `name`. */
  function CountDefining(att: seq<Value>, name: string): nat
  {
    if att == [] then 0
    else (if Defines(att[0], name) then 1 else 0) + CountDefining(att[1..], name)
  }

  lemma {:induction false} CountDefiningAppend(a: seq<Value>, b: seq<Value>, name: string)
    ensures CountDefining(a + b, name) == CountDefining(a, name) + CountDefining(b, name)
  {
    if a == [] {
      assert a + b == b;
    } else {
      assert (a + b)[0] == a[0];
      assert (a + b)[1..] == a[1..] + b;
      CountDefiningAppend(a[1..], b, name);
    }
  }

  lemma {:induction false} CountDefiningCopies(d: Value, count: nat, name: string)
    ensures CountDefining(Copies(d, count), name) == if Defines(d, name) then count else 0
  {
    if count > 0 {
      assert Copies(d, count) == [d] + Copies(d, count - 1);
      assert Copies(d, count)[1..] == Copies(d, count - 1);
      CountDefiningCopies(d, count - 1, name);
    }
  }

  predicate DistinctNames(t: seq<(string, nat)>)
  {
    forall i, j :: 0 <= i < j < |t| ==> t[i].0 != t[j].0
  }

  /** The count a tally gives `name`: the sum over its entries for `name`. */
  function CountOf(t: seq<(string, nat)>, name: string): nat
  {
    if t == [] then 0 else (if t[0].0 == name then t[0].1 else 0) + CountOf(t[1..], name)
  }

  /** In a tally without repeated names, the count of a listed name is its entry's count. */
  lemma {:induction false} CountOfDistinct(t: seq<(string, nat)>, name: string, i: nat)
    requires DistinctNames(t) && i < |t| && t[i].0 == name
    ensures CountOf(t, name) == t[i].1
  {
    if i == 0 {
      CountOfAbsent(t[1..], name);
    } else {
      assert t[0].0 != name;
      DistinctTail(t);
      CountOfDistinct(t[1..], name, i - 1);
    }
  }

  lemma {:induction false} CountOfAbsent(t: seq<(string, nat)>, name: string)
    requires forall i :: 0 <= i < |t| ==> t[i].0 != name
    ensures CountOf(t, name) == 0
  {
    if t != [] {
      assert t[0].0 != name;
      assert forall i :: 0 <= i < |t[1..]| ==> t[1..][i] == t[i + 1];
      CountOfAbsent(t[1..], name);
    }
  }

  lemma DistinctTail(t: seq<(string, nat)>)
    requires t != [] && DistinctNames(t)
    ensures DistinctNames(t[1..])
  {
    forall i, j | 0 <= i < j < |t[1..]| ensures t[1..][i].0 != t[1..][j].0 {
      assert t[1..][i] == t[i + 1] && t[1..][j] == t[j + 1];
    }
  }

  /**
    A name that has a definition is represented among the attachments as
    often as the tally counts it; a name without one not at all.
  */
  lemma {:induction false} AttachmentsCount(t: seq<(string, nat)>, defs: seq<Value>, name: string)
    requires AllObjects(defs)
    ensures Attachments(t, defs).Ok?
    ensures CountDefining(Attachments(t, defs).value, name)
         == if LastDefinition(defs, name).value.Some? then CountOf(t, name) else 0
  {
    if t != [] {
      var found := LastDefinition(defs, t[0].0).value;
      var here := if found.Some? then Copies(found.value, t[0].1) else [];
      AttachmentsCount(t[1..], defs, name);
      CountDefiningAppend(here, Attachments(t[1..], defs).value, name);
      if found.Some? {
        CountDefiningCopies(found.value, t[0].1, name);
        assert Defines(found.value, name) <==> t[0].0 == name;
      }
    }
  }

  /** The tally of a name list has no name twice. */
  lemma TallyDistinct(names: seq<string>)
    ensures DistinctNames(Tally(names))
    ensures forall i :: 0 <= i < |Tally(names)| ==> Tally(names)[i].1 == Occurrences(names, Tally(names)[i].0)
  {
  }

  /**
    Placeholder multiplicities: among the definitions attached for a
    paragraph whose names are `names`, a name with a definition is
    represented exactly as often as it occurs, and any other name not at
    all. Each copy is the name's last definition.
  */
  lemma AttachedMultiplicity(names: seq<string>, defs: seq<Value>, name: string)
    requires AllObjects(defs)
    ensures Attachments(Tally(names), defs).Ok?
    ensures CountDefining(Attachments(Tally(names), defs).value, name)
         == if LastDefinition(defs, name).value.Some? then Occurrences(names, name) else 0
  {
    var t := Tally(names);
    TallyDistinct(names);
    AttachmentsCount(t, defs, name);
    var d := Distinct(names);
    if name in names {
      var i :| 0 <= i < |d| && d[i] == name;
      assert t[i].0 == name;
      CountOfDistinct(t, name, i);
    } else {
      assert forall i :: 0 <= i < |t| ==> t[i].0 != name;
      CountOfAbsent(t, name);
    }
  }

  /** Every attached definition is the last definition of one of the counted names. */
  lemma {:induction false} AttachedAreLast(t: seq<(string, nat)>, defs: seq<Value>, k: nat)
    requires AllObjects(defs) && k < |Attachments(t, defs).value|
    ensures exists i :: 0 <= i < |t| && LastDefinition(defs, t[i].0) == Ok(Some(Attachments(t, defs).value[k]))
  {
    var found := LastDefinition(defs, t[0].0).value;
    var here := if found.Some? then Copies(found.value, t[0].1) else [];
    AttachmentsCount(t[1..], defs, t[0].0);
    var rest := Attachments(t[1..], defs).value;
    assert Attachments(t, defs).value == here + rest;
    if k < |here| {
      assert here[k] in here;
      assert LastDefinition(defs, t[0].0) == Ok(Some(Attachments(t, defs).value[k]));
    } else {
      assert Attachments(t, defs).value[k] == rest[k - |here|];
      AttachedAreLast(t[1..], defs, k - |here|);
      var i :| 0 <= i < |t[1..]| && LastDefinition(defs, t[1..][i].0) == Ok(Some(rest[k - |here|]));
      assert t[1..][i] == t[i + 1];
    }
  }

  /** A list with no member defining `name` counts none. */
  lemma {:induction false} CountDefiningZero(att: seq<Value>, name: string)
    requires CountDefining(att, name) == 0
    ensures forall k :: 0 <= k < |att| ==> !Defines(att[k], name)
  {
    if att != [] {
      CountDefiningZero(att[1..], name);
      assert forall k :: 1 <= k < |att| ==> att[k] == att[1..][k - 1];
    }
  }

  /** No definition in `att` for an entry of `t` follows one for a later entry. */
  predicate InTallyOrder(att: seq<Value>, t: seq<(string, nat)>)
  {
    forall a, b, i, j ::
      0 <= a < b < |att| && 0 <= i < |t| && 0 <= j < |t| && Defines(att[a], t[i].0) && Defines(att[b], t[j].0)
      ==> i <= j
  }

  /**
    The attachments come name by name in the order of the tally: a
    definition attached for an earlier entry never follows one attached
    for a later entry.
  */
  lemma {:induction false} AttachedInTallyOrder(t: seq<(string, nat)>, defs: seq<Value>)
    requires AllObjects(defs) && DistinctNames(t)
    ensures Attachments(t, defs).Ok? && InTallyOrder(Attachments(t, defs).value, t)
  {
    AttachmentsCount(t, defs, "");
    if t != [] {
      var found := LastDefinition(defs, t[0].0).value;
      var here := if found.Some? then Copies(found.value, t[0].1) else [];
      AttachmentsCount(t[1..], defs, t[0].0);
      var rest := Attachments(t[1..], defs).value;
      assert Attachments(t, defs).value == here + rest;
      DistinctTail(t);
      AttachedInTallyOrder(t[1..], defs);
      CountOfAbsent(t[1..], t[0].0);
      CountDefiningZero(rest, t[0].0);
      TallyOrderCons(here, rest, t);
    }
  }

  /** A block defining the first entry's name, before attachments in order for the other entries. */
  lemma TallyOrderCons(here: seq<Value>, rest: seq<Value>, t: seq<(string, nat)>)
    requires t != [] && DistinctNames(t)
    requires forall a :: 0 <= a < |here| ==> Defines(here[a], t[0].0)
    requires forall k :: 0 <= k < |rest| ==> !Defines(rest[k], t[0].0)
    requires InTallyOrder(rest, t[1..])
    ensures InTallyOrder(here + rest, t)
  {
    var att := here + rest;
    forall a, b, i, j | 0 <= a < b < |att| && 0 <= i < |t| && 0 <= j < |t|
                        && Defines(att[a], t[i].0) && Defines(att[b], t[j].0)
      ensures i <= j
    {
      if a < |here| {
        assert Defines(here[a], t[0].0);
        assert t[i].0 == t[0].0;
      } else {
        assert att[a] == rest[a - |here|] && att[b] == rest[b - |here|];
        assert t[1..][i - 1] == t[i] && t[1..][j - 1] == t[j];
      }
    }
  }

  /** Every definition attached for a paragraph is the last definition of a name the paragraph holds. */
  lemma AttachedNamedInParagraph(names: seq<string>, defs: seq<Value>)
    requires AllObjects(defs)
    ensures Attachments(Tally(names), defs).Ok?
    ensures var att := Attachments(Tally(names), defs).value;
            forall k :: 0 <= k < |att| ==> exists n :: n in names && LastDefinition(defs, n) == Ok(Some(att[k]))
  {
    var t := Tally(names);
    AttachmentsCount(t, defs, "");
    var att := Attachments(t, defs).value;
    forall k | 0 <= k < |att| ensures exists n :: n in names && LastDefinition(defs, n) == Ok(Some(att[k])) {
      AttachedAreLast(t, defs, k);
      var i :| 0 <= i < |t| && LastDefinition(defs, t[i].0) == Ok(Some(att[k]));
      assert Distinct(names)[i] in Distinct(names);
    }
  }

  /**
    The definitions attached for a paragraph follow the order in which
    their names first occur in it.
  */
  lemma AttachedInFirstOccurrenceOrder(names: seq<string>, defs: seq<Value>)
    requires AllObjects(defs)
    ensures Attachments(Tally(names), defs).Ok?
    ensures InFirstOccurrenceOrder(Attachments(Tally(names), defs).value, names)
  {
    AttachmentsCount(Tally(names), defs, "");
    var att := Attachments(Tally(names), defs).value;
    forall a: int, b: int, n, m {:trigger Defines(att[a], n), Defines(att[b], m)}
      | 0 <= a < b < |att| && Defines(att[a], n) && Defines(att[b], m)
      ensures n in names && m in names && FirstIndex(names, n) <= FirstIndex(names, m)
    {
      AttachedPairOrder(names, defs, a, b, n, m);
    }
  }

  /**
    Any two definitions in `att` define names of `names`, the earlier one a
    name that first occurs no later than the later one's.
  */
  ghost predicate InFirstOccurrenceOrder(att: seq<Value>, names: seq<string>)
  {
    forall a, b, n, m {:trigger Defines(att[a], n), Defines(att[b], m)} ::
      0 <= a < b < |att| && Defines(att[a], n) && Defines(att[b], m)
      ==> n in names && m in names && FirstIndex(names, n) <= FirstIndex(names, m)
  }

  lemma AttachedPairOrder(names: seq<string>, defs: seq<Value>, a: nat, b: nat, n: string, m: string)
    requires AllObjects(defs) && a < b < |Attachments(Tally(names), defs).value|
    requires Defines(Attachments(Tally(names), defs).value[a], n)
    requires Defines(Attachments(Tally(names), defs).value[b], m)
    ensures n in names && m in names && FirstIndex(names, n) <= FirstIndex(names, m)
  {
    var t := Tally(names);
    var att := Attachments(t, defs).value;
    TallyDistinct(names);
    AttachedInTallyOrder(t, defs);
    var i := AttachedEntry(t, defs, a, n);
    var j := AttachedEntry(t, defs, b, m);
    assert Defines(att[a], t[i].0) && Defines(att[b], t[j].0);
    FirstOccurrenceOfEntries(names, i, j);
  }

  /** The tally entry an attached definition of `n` was attached for. */
  lemma AttachedEntry(t: seq<(string, nat)>, defs: seq<Value>, k: nat, n: string) returns (i: nat)
    requires AllObjects(defs) && k < |Attachments(t, defs).value| && Defines(Attachments(t, defs).value[k], n)
    ensures i < |t| && t[i].0 == n
  {
    AttachedAreLast(t, defs, k);
    i :| 0 <= i < |t| && LastDefinition(defs, t[i].0) == Ok(Some(Attachments(t, defs).value[k]));
  }

  /** Tally entries in order have names in order of first occurrence. */
  lemma FirstOccurrenceOfEntries(names: seq<string>, i: nat, j: nat)
    requires i < |Tally(names)| && j < |Tally(names)|
    requires i <= j
    ensures Tally(names)[i].0 in names && Tally(names)[j].0 in names
    ensures FirstIndex(names, Tally(names)[i].0) <= FirstIndex(names, Tally(names)[j].0)
  {
    var d := Distinct(names);
    assert d[i] in d && d[j] in d;
    DistinctInFirstOccurrenceOrder(names);
  }

  // ---------------------------------------------------------------------
  // Paragraph entries

  /** The names that have a definition. */
  predicate SomeNameDefined(names: seq<string>, defs: seq<Value>)
  {
    exists i :: 0 <= i < |names| && LastDefinition(defs, names[i]).Ok? && LastDefinition(defs, names[i]).value.Some?
  }

  lemma {:induction false} AttachmentsEmpty(t: seq<(string, nat)>, defs: seq<Value>)
    requires AllObjects(defs)
    requires forall i :: 0 <= i < |t| ==> t[i].1 > 0
    ensures Attachments(t, defs).Ok?
    ensures Attachments(t, defs).value == [] <==>
              forall i :: 0 <= i < |t| ==> LastDefinition(defs, t[i].0).value.None?
  {
    if t != [] {
      AttachmentsEmpty(t[1..], defs);
      forall i | 1 <= i < |t| ensures t[i] == t[1..][i - 1] {}
    }
  }

  /**
    One sanitised paragraph `s`: when some `{name}` in it has a
    definition, it becomes `{"text": s, "placeholders": [...]}`, otherwise
    it stays the string `s`. `defs` is what iterating `placeholders` yields
    (or the error that raises); it is consulted only when `s` names a
    placeholder.
  */
  function Entry(s: string, defs: Result<seq<Value>>): (r: Result<Value>)
    ensures r.Ok? ==> r.value == Str(s) || (r.value.Obj? && Get(r.value.fields, "text") == Some(Str(s)))
  {
    var t := Tally(Markup.PlaceholderNames(s));
    if t == [] then Ok(Str(s))
    else if defs.Err? then Err(defs.error)
    else
      match Attachments(t, defs.value)
      case Err(e) => Err(e)
      case Ok(att) =>
        if att == [] then Ok(Str(s)) else Ok(Obj([("text", Str(s)), ("placeholders", Arr(att))]))
  }

  /** The counts of a tally are positive. */
  lemma TallyPositive(names: seq<string>)
    ensures forall i :: 0 <= i < |Tally(names)| ==> Tally(names)[i].1 > 0
  {
    var d := Distinct(names);
    forall i | 0 <= i < |d| ensures Occurrences(names, d[i]) > 0 {
      assert d[i] in d;
    }
  }

  /**
    A paragraph becomes a dictionary exactly when some placeholder named in
    it has a definition; the dictionary's placeholders carry each defined
    name as often as the text names it, and no other name.
  */
  lemma EntryShape(s: string, defs: seq<Value>, name: string)
    requires AllObjects(defs)
    ensures var names := Markup.PlaceholderNames(s);
            var r := Entry(s, Ok(defs));
            && r.Ok?
            && (r.value.Obj? <==> SomeNameDefined(names, defs))
            && Attachments(Tally(names), defs).Ok?
            && (r.value.Obj? ==>
                  var att := Attachments(Tally(names), defs).value;
                  && r.value == Obj([("text", Str(s)), ("placeholders", Arr(att))])
                  && CountDefining(att, name)
                     == if LastDefinition(defs, name).value.Some? then Occurrences(names, name) else 0)
  {
    var names := Markup.PlaceholderNames(s);
    var t := Tally(names);
    TallyPositive(names);
    AttachmentsEmpty(t, defs);
    AttachedMultiplicity(names, defs, name);
    TallyDefined(names, defs);
    var att := Attachments(t, defs).value;
    assert Entry(s, Ok(defs)) == if att == [] then Ok(Str(s)) else Ok(Obj([("text", Str(s)), ("placeholders", Arr(att))]));
  }

  /** Some counted name has a definition exactly when some named placeholder has one. */
  lemma TallyDefined(names: seq<string>, defs: seq<Value>)
    requires AllObjects(defs)
    ensures (forall i :: 0 <= i < |Tally(names)| ==> LastDefinition(defs, Tally(names)[i].0).value.None?)
            <==> !SomeNameDefined(names, defs)
  {
    var t := Tally(names);
    var d := Distinct(names);
    if SomeNameDefined(names, defs) {
      var i :| 0 <= i < |names| && LastDefinition(defs, names[i]).value.Some?;
      var n := names[i];
      assert n in names;
      assert n in d;
      var k :| 0 <= k < |d| && d[k] == n;
      assert t[k].0 == n;
    } else {
      forall i | 0 <= i < |t| ensures LastDefinition(defs, t[i].0).value.None? {
        assert d[i] in d;
      }
    }
  }

  /** Without definitions to consult, a paragraph stays its text. */
  lemma EntryWithoutDefinitions(s: string)
    ensures Entry(s, Ok([])) == Ok(Str(s))
  {
    var t := Tally(Markup.PlaceholderNames(s));
    TallyPositive(Markup.PlaceholderNames(s));
    AttachmentsEmpty(t, []);
  }

  /** Every sanitised paragraph, in order, stopping at the first error. */
  function Entries(ss: seq<string>, defs: Result<seq<Value>>): (r: Result<seq<Value>>)
    ensures r.Ok? ==> |r.value| == |ss|
  {
    if ss == [] then Ok([])
    else
      match Entry(ss[0], defs)
      case Err(e) => Err(e)
      case Ok(x) =>
        match Entries(ss[1..], defs)
        case Err(e) => Err(e)
        case Ok(rest) => Ok([x] + rest)
  }

  /** The entries of a list are those of its first paragraph, then those of the rest. */
  lemma EntriesStep(ss: seq<string>, defs: Result<seq<Value>>)
    requires ss != []
    ensures Entries(ss, defs) == match Entry(ss[0], defs)
                                 case Err(e) => Err(e)
                                 case Ok(x) => Prepend([x], Entries(ss[1..], defs))
  {
  }

  /** One round of the paragraph loop: the entry of paragraph `i` is appended, or its error ends the loop. */
  lemma EntriesLoopStep(ss: seq<string>, i: nat, defs: Result<seq<Value>>, out: seq<Value>)
    requires i < |ss|
    ensures Entry(ss[i], defs).Err? ==> Prepend(out, Entries(ss[i..], defs)) == Err(Entry(ss[i], defs).error)
    ensures Entry(ss[i], defs).Ok? ==>
              Prepend(out, Entries(ss[i..], defs)) == Prepend(out + [Entry(ss[i], defs).value], Entries(ss[i + 1..], defs))
  {
    assert ss[i..][0] == ss[i] && ss[i..][1..] == ss[i + 1..];
    EntriesStep(ss[i..], defs);
    if Entry(ss[i], defs).Ok? {
      PrependTwice(out, [Entry(ss[i], defs).value], Entries(ss[i + 1..], defs));
    }
  }

  /** The entries succeed exactly when each paragraph's entry does, and are those entries in order. */
  lemma EntriesPointwise(ss: seq<string>, defs: Result<seq<Value>>)
    ensures Entries(ss, defs).Ok? <==> forall i :: 0 <= i < |ss| ==> Entry(ss[i], defs).Ok?
    ensures Entries(ss, defs).Ok? ==> forall i :: 0 <= i < |ss| ==> Entry(ss[i], defs) == Ok(Entries(ss, defs).value[i])
  {
    if Entries(ss, defs).Ok? {
      forall i | 0 <= i < |ss| ensures Entry(ss[i], defs) == Ok(Entries(ss, defs).value[i]) {
        EntriesAt(ss, defs, i);
      }
    } else if forall i :: 0 <= i < |ss| ==> Entry(ss[i], defs).Ok? {
      EntriesOk(ss, defs);
    }
  }

  lemma {:induction false} EntriesAt(ss: seq<string>, defs: Result<seq<Value>>, i: nat)
    requires i < |ss| && Entries(ss, defs).Ok?
    ensures Entry(ss[i], defs) == Ok(Entries(ss, defs).value[i])
  {
    EntriesStep(ss, defs);
    if i > 0 {
      assert ss[1..][i - 1] == ss[i];
      EntriesAt(ss[1..], defs, i - 1);
    }
  }

  lemma {:induction false} EntriesOk(ss: seq<string>, defs: Result<seq<Value>>)
    requires forall i :: 0 <= i < |ss| ==> Entry(ss[i], defs).Ok?
    ensures Entries(ss, defs).Ok?
  {
    if ss != [] {
      EntriesStep(ss, defs);
      assert Entry(ss[0], defs).Ok?;
      assert forall i :: 0 <= i < |ss[1..]| ==> ss[1..][i] == ss[i + 1];
      EntriesOk(ss[1..], defs);
    }
  }

  /** With no definitions, every paragraph comes out as its text. */
  lemma EntriesWithoutDefinitions(ss: seq<string>)
    ensures Entries(ss, Ok([])).Ok?
    ensures forall i :: 0 <= i < |ss| ==> Entries(ss, Ok([])).value[i] == Str(ss[i])
  {
    forall i | 0 <= i < |ss| ensures Entry(ss[i], Ok([])) == Ok(Str(ss[i])) {
      EntryWithoutDefinitions(ss[i]);
    }
    EntriesPointwise(ss, Ok([]));

  }
}
