/**
  The element transformer: the recursive dispatch over JSON shapes that
  rewrites one matched value (`process_item` in the v10 converter,
  `process_element` in the helper utilities).

  The two copies share their structure and differ in four places, which
  `Variant` selects:
  - the helper strips the already stripped sanitised text once more;
  - the helper attaches definitions only when `placeholders` is a list (the
    v10 copy iterates whatever is there, default `[]`);
  - the helper expands a list element only when its expandable key is
    truthy, so the key `""` is never expanded;
  - the helper returns numbers, booleans and null unchanged, where the v10
    copy hands them to `process_list` and fails with TypeError.
*/
module Transform {
  import opened Wrappers
  import opened Json
  import Markup
  import Placeholders

  datatype Variant = V10 | Helper

  // ---------------------------------------------------------------------
  // Strings

  /** The sanitised text of a paragraph or string. */
  function Clean(variant: Variant, p: string): (r: string)
    ensures Markup.Trimmed(r)
  {
    if variant.Helper? then Markup.Trim(Markup.Sanitise(p)) else Markup.Sanitise(p)
  }

  /** The helper's extra strip changes nothing: both copies clean alike. */
  lemma CleanAgrees(p: string)
    ensures Clean(Helper, p) == Clean(V10, p)
  {
    var s := Markup.Sanitise(p);
    Markup.TrimUnique(s, [], s, []);
  }

  function CleanAll(variant: Variant, ps: seq<string>): (r: seq<string>)
    ensures |r| == |ps| && forall i :: 0 <= i < |ps| ==> r[i] == Clean(variant, ps[i])
  {
    seq(|ps|, i requires 0 <= i < |ps| => Clean(variant, ps[i]))
  }

  function Strs(ss: seq<string>): (r: seq<Value>)
    ensures |r| == |ss| && forall i :: 0 <= i < |ss| ==> r[i] == Str(ss[i])
  {
    seq(|ss|, i requires 0 <= i < |ss| => Str(ss[i]))
  }

  /** Every item is a stripped string. */
  predicate CleanStrings(items: seq<Value>)
  {
    forall i :: 0 <= i < |items| ==> items[i].Str? && Markup.Trimmed(items[i].s)
  }

  /**
    `process_string`: a string with a `<p>...</p>` span becomes its cleaned
    non-blank paragraphs (a bare string when there is exactly one); any
    other string is cleaned whole.
  */
  function ProcessString(variant: Variant, s: string): (r: Value)
    ensures r.Str? || r.Arr?
    ensures r.Str? ==> Markup.Trimmed(r.s)
    ensures r.Arr? ==> Markup.HasParagraph(s, true) && |r.items| == |Markup.SplitParagraphs(s, true)| != 1
                       && CleanStrings(r.items)
    ensures !Markup.HasParagraph(s, true) ==> r == Str(Clean(variant, s))
  {
    if Markup.HasParagraph(s, true) then
      var ps := CleanAll(variant, Markup.SplitParagraphs(s, true));
      if |ps| == 1 then Str(ps[0]) else Arr(Strs(ps))
    else Str(Clean(variant, s))
  }

  /** Wrapped plain paragraphs come back as themselves: one as a string, several as a list. */
  lemma ProcessStringWrap(variant: Variant, ps: seq<string>)
    requires |ps| >= 1
    requires forall i :: 0 <= i < |ps| ==> ps[i] != [] && Markup.Trimmed(ps[i]) && Markup.NoTagStart(ps[i])
    ensures ProcessString(variant, Markup.Wrap(ps)) == if |ps| == 1 then Str(ps[0]) else Arr(Strs(ps))
  {
    PlainParagraphs(variant, ps);
    var w := Markup.Wrap(ps);
    assert Markup.SplitParagraphs(w, true) == ps by {
      Markup.SplitWrap(ps, true);
    }
    assert Markup.HasParagraph(w, true) by {
      Markup.WrapHasParagraph(ps, true);
    }
    ProcessStringSplits(variant, w, ps);
  }

  /**
    Plain text in paragraph spans: blank paragraphs are dropped and the
    others come back stripped, in order; one left over is returned as a
    string, any other number as a list.
  */
  lemma ProcessStringParagraphs(variant: Variant, ps: seq<string>)
    requires |ps| >= 1
    requires forall i :: 0 <= i < |ps| ==> Markup.NoTagStart(ps[i])
    ensures var qs := Markup.CleanParagraphs(ps);
            ProcessString(variant, Markup.Wrap(ps)) == if |qs| == 1 then Str(qs[0]) else Arr(Strs(qs))
  {
    var qs := Markup.CleanParagraphs(ps);
    forall i | 0 <= i < |ps| ensures Markup.NoClosingTag(ps[i], true) {
      Markup.TagFreeHasNoParagraph(ps[i], true);
    }
    Markup.SplitWrapped(ps, true);
    Markup.WrapHasParagraph(ps, true);
    forall i | 0 <= i < |qs| ensures Markup.NoTagStart(qs[i]) {
      Markup.CleanParagraphsMembers(ps, qs[i]);
      var j :| 0 <= j < |ps| && Markup.Trim(ps[j]) == qs[i];
      Markup.TrimKeepsTagFree(ps[j]);
    }
    PlainParagraphs(variant, qs);
    ProcessStringSplits(variant, Markup.Wrap(ps), qs);
  }

  /** Plain paragraphs hold no closing tag and are their own cleaned text. */
  lemma PlainParagraphs(variant: Variant, ps: seq<string>)
    requires forall i :: 0 <= i < |ps| ==> Markup.Trimmed(ps[i]) && Markup.NoTagStart(ps[i])
    ensures forall i :: 0 <= i < |ps| ==> Markup.NoClosingTag(ps[i], true) && Clean(variant, ps[i]) == ps[i]
  {
    forall i | 0 <= i < |ps| ensures Markup.NoClosingTag(ps[i], true) && Clean(variant, ps[i]) == ps[i] {
      PlainParagraph(variant, ps[i]);
    }
  }

  lemma PlainParagraph(variant: Variant, p: string)
    requires Markup.Trimmed(p) && Markup.NoTagStart(p)
    ensures Markup.NoClosingTag(p, true) && Clean(variant, p) == p
  {
    Markup.TagFreeHasNoParagraph(p, true);
    Markup.SanitiseTagFree(p);
    assert p == [] + p + [];
    Markup.TrimUnique(p, [], p, []);
  }

  lemma ProcessStringSplits(variant: Variant, s: string, ps: seq<string>)
    requires Markup.HasParagraph(s, true) && Markup.SplitParagraphs(s, true) == ps
    requires forall i :: 0 <= i < |ps| ==> Clean(variant, ps[i]) == ps[i]
    ensures ProcessString(variant, s) == if |ps| == 1 then Str(ps[0]) else Arr(Strs(ps))
  {
    assert CleanAll(variant, ps) == ps;
  }

  /** Text without markup is only stripped. */
  lemma ProcessStringPlain(variant: Variant, s: string)
    requires Markup.NoTagStart(s)
    ensures ProcessString(variant, s) == Str(Markup.Trim(s))
  {
    Markup.TagFreeHasNoParagraph(s, true);
    Markup.SanitiseTagFree(s);
    Markup.TrimIdempotent(s);
  }

  // ---------------------------------------------------------------------
  // Text blocks

  /** `str(d.get("text", ""))`. */
  function TextOf(fields: seq<(string, Value)>): string
  {
    match Get(fields, "text")
    case None => ""
    case Some(t) => PyStr(t)
  }

  /** What iterating the block's `placeholders` yields, in each copy. */
  function Definitions(variant: Variant, fields: seq<(string, Value)>): (r: Result<seq<Value>>)
    ensures variant.Helper? ==> r.Ok?
  {
    var given := Get(fields, "placeholders");
    if variant.Helper? then
      (if given.Some? && given.value.Arr? then Ok(given.value.items) else Ok([]))
    else
      Placeholders.Iterate(if given.Some? then given.value else Arr([]))
  }

  /**
    `split_paragraphs_with_placeholders`: one entry per non-blank paragraph
    of the block's text, in order.
  */
  function Split(variant: Variant, fields: seq<(string, Value)>): (r: Result<seq<Value>>)
    ensures r.Ok? ==> |r.value| == |Markup.SplitParagraphs(TextOf(fields), true)|
  {
    Placeholders.Entries(CleanAll(variant, Markup.SplitParagraphs(TextOf(fields), true)), Definitions(variant, fields))
  }

  /**
    `process_placeholder`: a block whose text has a paragraph span becomes
    the list of its paragraph entries; otherwise only its `text` is
    replaced by the cleaned text, in place.
  */
  function ProcessPlaceholder(variant: Variant, fields: seq<(string, Value)>): (r: Result<Value>)
    ensures Markup.HasParagraph(TextOf(fields), true) && r.Ok? ==>
              r.value.Arr? && |r.value.items| == |Markup.SplitParagraphs(TextOf(fields), true)|
    ensures !Markup.HasParagraph(TextOf(fields), true) ==> (r.Err? <==> "text" !in Keys(fields))
    ensures !Markup.HasParagraph(TextOf(fields), true) && r.Ok? ==>
              && r.value.Obj?
              && Keys(r.value.fields) == Keys(fields)
              && Get(r.value.fields, "text") == Some(Str(Clean(variant, TextOf(fields))))
              && forall k :: k != "text" ==> Get(r.value.fields, k) == Get(fields, k)
  {
    if Markup.HasParagraph(TextOf(fields), true) then
      match Split(variant, fields)
      case Err(e) => Err(e)
      case Ok(entries) => Ok(Arr(entries))
    else
      match Get(fields, "text")
      case None => Err(KeyError)
      case Some(t) =>
        var cleaned := Str(Clean(variant, PyStr(t)));
        AssignFrame(fields, "text", cleaned);
        Ok(Obj(Assign(fields, "text", cleaned)))
  }

  // ---------------------------------------------------------------------
  // Lists

  /** A member holding a string with a paragraph span. */
  predicate Expandable(member: (string, Value))
  {
    member.1.Str? && Markup.HasParagraph(member.1.s, true)
  }

  /** The position of the first expandable member, if any. */
  function FirstExpandable(fields: seq<(string, Value)>): (r: Option<nat>)
    ensures r.Some? ==> r.value < |fields| && Expandable(fields[r.value])
    ensures forall j :: 0 <= j < |fields| && (r.Some? ==> j < r.value) ==> !Expandable(fields[j])
  {
    if fields == [] then None
    else if Expandable(fields[0]) then Some(0)
    else
      assert forall j :: 1 <= j < |fields| ==> fields[j] == fields[1..][j - 1];
      match FirstExpandable(fields[1..])
      case None => None
      case Some(i) => Some(i + 1)
  }

  /**
    The member a list element is expanded by: the first expandable one,
    except that the helper tests the key's truth value and so never expands
    by the key `""`.
  */
  function ExpandableMember(variant: Variant, fields: seq<(string, Value)>): (r: Option<nat>)
    ensures r.Some? ==> FirstExpandable(fields) == r
    ensures r.None? ==> FirstExpandable(fields).None? || (variant.Helper? && fields[FirstExpandable(fields).value].0 == "")
  {
    match FirstExpandable(fields)
    case None => None
    case Some(i) => if variant.Helper? && fields[i].0 == "" then None else Some(i)
  }

  /** `{key: p}` for each paragraph `p`. */
  function Expand(key: string, ps: seq<string>): (r: seq<Value>)
    ensures |r| == |ps| && forall i :: 0 <= i < |ps| ==> r[i] == Obj([(key, Str(ps[i]))])
  {
    seq(|ps|, i requires 0 <= i < |ps| => Obj([(key, Str(ps[i]))]))
  }

  // ---------------------------------------------------------------------
  // The recursive dispatch

  /**
    `process_item` / `process_element`: strings are processed as strings,
    dictionaries with `text` as text blocks, lists element by element, other
    dictionaries value by value; scalars fail in the v10 copy and pass
    through in the helper.
  */
  function ProcessItem(variant: Variant, v: Value): (r: Result<Value>)
    ensures v.Str? ==> r == Ok(ProcessString(variant, v.s))
    ensures v.Obj? && "text" in Keys(v.fields) ==> r == ProcessPlaceholder(variant, v.fields)
    ensures (v.Num? || v.Bool? || v.Null?) ==> r == if variant.V10? then Err(TypeError) else Ok(v)
    ensures r.Ok? && v.Arr? ==> r.value.Arr?
    ensures r.Ok? && v.Obj? && "text" !in Keys(v.fields) ==> r.value.Obj? && Keys(r.value.fields) == Keys(v.fields)
    decreases Size(v), 2
  {
    match v
    case Str(s) => Ok(ProcessString(variant, s))
    case Obj(fields) =>
      if "text" in Keys(fields) then ProcessPlaceholder(variant, fields)
      else
        (match ProcessFields(variant, fields)
         case Err(e) => Err(e)
         case Ok(fs) => Ok(Obj(fs)))
    case Arr(items) =>
      (match ProcessList(variant, items)
       case Err(e) => Err(e)
       case Ok(xs) => Ok(Arr(xs)))
    case _ => if variant.V10? then Err(TypeError) else Ok(v)
  }

  /** `{key: process(value) for key, value in d.items()}`. */
  function ProcessFields(variant: Variant, fields: seq<(string, Value)>): (r: Result<seq<(string, Value)>>)
    ensures r.Ok? ==> Keys(r.value) == Keys(fields)
    decreases SizeFields(fields), 1
  {
    if fields == [] then Ok([])
    else
      var member := fields[0];
      assert member.1 < member;
      match ProcessItem(variant, member.1)
      case Err(e) => Err(e)
      case Ok(x) =>
        match ProcessFields(variant, fields[1..])
        case Err(e) => Err(e)
        case Ok(rest) =>
          KeysCons(member, fields[1..]);
          assert [member] + fields[1..] == fields;
          KeysCons((member.0, x), rest);
          Ok([(member.0, x)] + rest)
  }

  /**
    `process_list`: the elements each element of the input contributes, in
    order. A dictionary with an expandable member becomes one
    single-member dictionary per stripped paragraph of that member; any
    other dictionary is appended processed; any other element is processed
    and, when that yields a list, flattened one level.
  */
  function ProcessList(variant: Variant, items: seq<Value>): (r: Result<seq<Value>>)
    ensures r.Ok? <==> forall i :: 0 <= i < |items| ==> ListElement(variant, items[i]).Ok?
    decreases SizeList(items), 1
  {
    if items == [] then Ok([])
    else
      assert forall i :: 1 <= i < |items| ==> items[i] == items[1..][i - 1];
      match ListElement(variant, items[0])
      case Err(e) => Err(e)
      case Ok(here) =>
        match ProcessList(variant, items[1..])
        case Err(e) => Err(e)
        case Ok(rest) => Ok(here + rest)
  }

  /** What one element contributes to the processed list. */
  function ListElement(variant: Variant, item: Value): Result<seq<Value>>
    decreases Size(item), 3
  {
    if item.Obj? && ExpandableMember(variant, item.fields).Some? then
      var m := item.fields[ExpandableMember(variant, item.fields).value];
      Ok(Expand(m.0, Markup.SplitParagraphs(m.1.s, true)))
    else
      match ProcessItem(variant, item)
      case Err(e) => Err(e)
      case Ok(x) => if !item.Obj? && x.Arr? then Ok(x.items) else Ok([x])
  }

  // ---------------------------------------------------------------------
  // The loops that build the results

  /**
    `split_paragraphs_with_placeholders`: the block's text is split into
    paragraphs, its definitions are read, and the paragraph loop builds
    the entries.
  */
  method SplitParagraphsWithPlaceholders(variant: Variant, fields: seq<(string, Value)>) returns (r: Result<seq<Value>>)
    ensures r == Split(variant, fields)
  {
    var paragraphs := Markup.SplitParagraphs(TextOf(fields), true);
    var defs := Definitions(variant, fields);
    r := ParagraphLoop(variant, paragraphs, defs);
  }

  /**
    The paragraph loop: each paragraph is cleaned, its placeholder names
    counted, the matching definitions collected, and the paragraph
    appended as a text block or as a bare string.
  */
  method ParagraphLoop(variant: Variant, paragraphs: seq<string>, defs: Result<seq<Value>>) returns (r: Result<seq<Value>>)
    ensures r == Placeholders.Entries(CleanAll(variant, paragraphs), defs)
  {
    ghost var cleaned := CleanAll(variant, paragraphs);
    var out: seq<Value> := [];
    var i := 0;
    assert cleaned[i..] == cleaned;
    PrependNothing(Placeholders.Entries(cleaned, defs));
    while i < |paragraphs|
      invariant 0 <= i <= |paragraphs|
      invariant Placeholders.Entries(cleaned, defs) == Prepend(out, Placeholders.Entries(cleaned[i..], defs))
    {
      var s := Clean(variant, paragraphs[i]);
      assert s == cleaned[i];
      var entry := ParagraphEntry(s, defs);
      Placeholders.EntriesLoopStep(cleaned, i, defs, out);
      if entry.Err? {
        return Err(entry.error);
      }
      out := out + [entry.value];
      i := i + 1;
    }
    assert out + [] == out;
    return Ok(out);
  }

  /**
    The body of the paragraph loop: the placeholder names of the cleaned
    paragraph are counted and, for each, the matching definitions
    collected; the paragraph becomes a text block when any were found.
  */
  method ParagraphEntry(s: string, defs: Result<seq<Value>>) returns (r: Result<Value>)
    ensures r == Placeholders.Entry(s, defs)
  {
    var t := Placeholders.Tally(Markup.PlaceholderNames(s));
    var matching: seq<Value> := [];
    if t != [] {
      if defs.Err? {
        return Err(defs.error);
      }
      var attached := Placeholders.AttachDefinitions(t, defs.value);
      if attached.Err? {
        return Err(attached.error);
      }
      matching := attached.value;
    }
    if matching != [] {
      return Ok(Obj([("text", Str(s)), ("placeholders", Arr(matching))]));
    }
    return Ok(Str(s));
  }

  /** The list of a list's first element's contribution followed by the rest's. */
  lemma ProcessListStep(variant: Variant, items: seq<Value>)
    requires items != []
    ensures ProcessList(variant, items) == match ListElement(variant, items[0])
                                           case Err(e) => Err(e)
                                           case Ok(here) => Prepend(here, ProcessList(variant, items[1..]))
  {
  }

  /** One round of the `process_list` loop: element `i` contributes its part, or its error ends the loop. */
  lemma ProcessListLoopStep(variant: Variant, items: seq<Value>, i: nat, out: seq<Value>)
    requires i < |items|
    ensures ListElement(variant, items[i]).Err? ==>
              Prepend(out, ProcessList(variant, items[i..])) == Err(ListElement(variant, items[i]).error)
    ensures ListElement(variant, items[i]).Ok? ==>
              Prepend(out, ProcessList(variant, items[i..]))
              == Prepend(out + ListElement(variant, items[i]).value, ProcessList(variant, items[i + 1..]))
  {
    assert items[i..][0] == items[i] && items[i..][1..] == items[i + 1..];
    ProcessListStep(variant, items[i..]);
    if ListElement(variant, items[i]).Ok? {
      PrependTwice(out, ListElement(variant, items[i]).value, ProcessList(variant, items[i + 1..]));
    }
  }

  /**
    The loop of `process_list`: each element's contribution is appended
    (one element) or extended (several).
  */
  method TransformList(variant: Variant, items: seq<Value>) returns (r: Result<seq<Value>>)
    ensures r == ProcessList(variant, items)
  {
    var out: seq<Value> := [];
    var i := 0;
    assert items[i..] == items;
    PrependNothing(ProcessList(variant, items));
    while i < |items|
      invariant 0 <= i <= |items|
      invariant ProcessList(variant, items) == Prepend(out, ProcessList(variant, items[i..]))
    {
      var here := TransformElement(variant, items[i]);
      ProcessListLoopStep(variant, items, i, out);
      if here.Err? {
        return Err(here.error);
      }
      out := out + here.value;
      i := i + 1;
    }
    assert out + [] == out;
    return Ok(out);
  }

  /** The body of the `process_list` loop for one element. */
  method TransformElement(variant: Variant, item: Value) returns (r: Result<seq<Value>>)
    ensures r == ListElement(variant, item)
  {
    if item.Obj? && ExpandableMember(variant, item.fields).Some? {
      var member := item.fields[ExpandableMember(variant, item.fields).value];
      return Ok(Expand(member.0, Markup.SplitParagraphs(member.1.s, true)));
    }
    var processed := ProcessItem(variant, item);
    if processed.Err? {
      return Err(processed.error);
    }
    if !item.Obj? && processed.value.Arr? {
      return Ok(processed.value.items);
    }
    return Ok([processed.value]);
  }

  // ---------------------------------------------------------------------
  // Properties

  /** Processing a concatenation processes the parts and concatenates the results. */
  lemma {:induction false} ProcessListAppend(variant: Variant, a: seq<Value>, b: seq<Value>)
    ensures ProcessList(variant, a + b) == match ProcessList(variant, a)
                                           case Err(e) => Err(e)
                                           case Ok(x) => Prepend(x, ProcessList(variant, b))
  {
    if a == [] {
      assert a + b == b;
      PrependNothing(ProcessList(variant, b));
    } else {
      AppendShape(a, b);
      ProcessListStep(variant, a + b);
      ProcessListStep(variant, a);
      ProcessListAppend(variant, a[1..], b);
      match ListElement(variant, a[0])
      case Err(_) =>
      case Ok(h) =>
        if ProcessList(variant, a[1..]).Ok? {
          PrependTwice(h, ProcessList(variant, a[1..]).value, ProcessList(variant, b));
        }
    }
  }

  lemma AppendShape<T>(a: seq<T>, b: seq<T>)
    requires a != []
    ensures a + b != [] && (a + b)[0] == a[0] && (a + b)[1..] == a[1..] + b
  {
  }

  /** Each member keeps its key and holds its processed value. */
  lemma {:induction false} ProcessFieldsPointwise(variant: Variant, fields: seq<(string, Value)>, i: nat)
    requires i < |fields| && ProcessFields(variant, fields).Ok?
    ensures ProcessItem(variant, fields[i].1).Ok?
    ensures ProcessFields(variant, fields).value[i] == (fields[i].0, ProcessItem(variant, fields[i].1).value)
  {
    if i > 0 {
      ProcessFieldsPointwise(variant, fields[1..], i - 1);
    }
  }

  /**
    A dictionary whose first member is a wrapped plain text expands, as a
    list element, into one single-member dictionary per paragraph; its
    other members are dropped.
  */
  lemma ExpandWrapped(variant: Variant, key: string, ps: seq<string>, rest: seq<(string, Value)>)
    requires variant.V10? || key != ""
    requires forall i :: 0 <= i < |ps| ==> ps[i] != [] && Markup.Trimmed(ps[i]) && Markup.NoTagStart(ps[i])
    requires |ps| >= 1
    ensures ProcessList(variant, [Obj([(key, Str(Markup.Wrap(ps)))] + rest)]) == Ok(Expand(key, ps))
  {
    forall i | 0 <= i < |ps| ensures Markup.NoClosingTag(ps[i], true) {
      Markup.TagFreeHasNoParagraph(ps[i], true);
    }
    Markup.SplitWrap(ps, true);
    Markup.WrapHasParagraph(ps, true);
    var w := Markup.Wrap(ps);
    var fields := [(key, Str(w))] + rest;
    assert fields[0] == (key, Str(w));
    assert Expandable(fields[0]);
    assert FirstExpandable(fields) == Some(0);
    assert ListElement(variant, Obj(fields)) == Ok(Expand(key, ps));
    var items := [Obj(fields)];
    assert items[1..] == [];
    assert Expand(key, ps) + [] == Expand(key, ps);
  }

  /**
    A dictionary whose first member is `<p>p</p>t` expands by that member:
    the span's text is stripped and becomes one `{key: text}` element, or
    none when it is blank, followed by the paragraphs of `t`; the
    dictionary's other members are dropped.
  */
  lemma ExpandSpan(variant: Variant, key: string, p: string, t: string, others: seq<(string, Value)>, rest: seq<Value>)
    requires variant.V10? || key != ""
    requires Markup.NoClosingTag(p, true)
    ensures ProcessList(variant, [Obj([(key, Str("<p>" + p + "</p>" + t))] + others)] + rest)
            == Prepend(Expand(key, (if Markup.Trim(p) == [] then [] else [Markup.Trim(p)]) + Markup.SplitParagraphs(t, true)),
                       ProcessList(variant, rest))
  {
    var s := "<p>" + p + "</p>" + t;
    Markup.RawParagraphsCons(p, t, true);
    Markup.SplitParagraphsCons(p, t, true);
    var fields := [(key, Str(s))] + others;
    assert fields[0] == (key, Str(s));
    assert Expandable(fields[0]);
    assert FirstExpandable(fields) == Some(0);
    var items := [Obj(fields)] + rest;
    assert items[0] == Obj(fields) && items[1..] == rest;
    ProcessListStep(variant, items);
  }

  /**
    A lone blank span expands into nothing: the element disappears from
    the list.
  */
  lemma BlankSpanDropped(variant: Variant, key: string, p: string, others: seq<(string, Value)>, rest: seq<Value>)
    requires variant.V10? || key != ""
    requires Markup.AllSpace(p)
    ensures ProcessList(variant, [Obj([(key, Str("<p>" + p + "</p>"))] + others)] + rest) == ProcessList(variant, rest)
  {
    Markup.TrimUnique(p, p, [], []);
    forall i | 0 <= i < |p| ensures !Markup.ClosesParagraph(p[i..], true) {
      assert p[i..][0] == p[i];
    }
    assert "<p>" + p + "</p>" == "<p>" + p + "</p>" + "";
    Markup.TagFreeHasNoParagraph("", true);
    ExpandSpan(variant, key, p, "", others, rest);
    assert Expand(key, []) == [];
    PrependNothing(ProcessList(variant, rest));
  }

  /**
    The expansion strips the span but does not sanitise it: the bold tags
    of `<p><b>x</b></p>` stay as they are, where a string element would
    have them converted to strong tags.
  */
  lemma BoldKeptInExpansion(variant: Variant, key: string, x: string, others: seq<(string, Value)>, rest: seq<Value>)
    requires variant.V10? || key != ""
    requires Markup.NoTagStart(x)
    ensures ProcessList(variant, [Obj([(key, Str("<p><b>" + x + "</b></p>"))] + others)] + rest)
            == Prepend([Obj([(key, Str("<b>" + x + "</b>"))])], ProcessList(variant, rest))
  {
    var b := "<b>" + x + "</b>";
    Markup.BoldSpanPlain(x, true);
    assert "<p><b>" + x + "</b></p>" == "<p>" + b + "</p>" + "";
    Markup.TagFreeHasNoParagraph("", true);
    ExpandSpan(variant, key, b, "", others, rest);
    assert Markup.SplitParagraphs("", true) == [];
    assert [b] + [] == [b];
    assert Expand(key, [b]) == [Obj([(key, Str(b))])];
  }

  /**
    A dictionary with nothing to expand contributes exactly one element:
    itself, processed.
  */
  lemma DictContributesOne(variant: Variant, fields: seq<(string, Value)>, rest: seq<Value>)
    requires ExpandableMember(variant, fields).None?
    ensures ProcessItem(variant, Obj(fields)).Err? ==>
              ProcessList(variant, [Obj(fields)] + rest) == Err(ProcessItem(variant, Obj(fields)).error)
    ensures ProcessItem(variant, Obj(fields)).Ok? ==>
              ProcessList(variant, [Obj(fields)] + rest)
              == Prepend([ProcessItem(variant, Obj(fields)).value], ProcessList(variant, rest))
  {
    var items := [Obj(fields)] + rest;
    assert items[0] == Obj(fields) && items[1..] == rest;
    ProcessListStep(variant, items);
  }

  /** A nested list is flattened one level: its processed elements are spliced in. */
  lemma NestedListSpliced(variant: Variant, inner: seq<Value>, rest: seq<Value>)
    ensures ProcessList(variant, inner).Err? ==>
              ProcessList(variant, [Arr(inner)] + rest) == Err(ProcessList(variant, inner).error)
    ensures ProcessList(variant, inner).Ok? ==>
              ProcessList(variant, [Arr(inner)] + rest) == Prepend(ProcessList(variant, inner).value, ProcessList(variant, rest))
  {
    var items := [Arr(inner)] + rest;
    assert items[0] == Arr(inner) && items[1..] == rest;
    ProcessListStep(variant, items);
  }

  /**
    A string element with paragraph spans contributes each cleaned
    paragraph as an element of its own; any other string contributes its
    cleaned self.
  */
  lemma StringSpliced(variant: Variant, s: string, rest: seq<Value>)
    ensures Markup.HasParagraph(s, true) ==>
              ProcessList(variant, [Str(s)] + rest)
              == Prepend(Strs(CleanAll(variant, Markup.SplitParagraphs(s, true))), ProcessList(variant, rest))
    ensures !Markup.HasParagraph(s, true) ==>
              ProcessList(variant, [Str(s)] + rest) == Prepend([Str(Clean(variant, s))], ProcessList(variant, rest))
  {
    var items := [Str(s)] + rest;
    assert items[0] == Str(s) && items[1..] == rest;
    ProcessListStep(variant, items);
    var ps := CleanAll(variant, Markup.SplitParagraphs(s, true));
    if Markup.HasParagraph(s, true) && |ps| == 1 {
      assert Strs(ps) == [Str(ps[0])];
    }
  }
}
