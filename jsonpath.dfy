/**
  The path expressions that select the strings to rewrite.

  The converter hands each expression of its catalogue to a JSONPath
  library. This module reads the part of that language the rewrite pass
  interprets: an optional root `$`, then member names (`.name`, the name
  selector of section 2.3.1 of RFC 9535), the member wildcard `.*` and the
  element wildcard `[*]` (the wildcard selector of section 2.3.2). A path
  without `$` starts with a bare name, as in `contents[*].description`.
*/
module JsonPath {
  import opened Wrappers

  datatype Segment = Field(name: string) | AllFields | AllItems

  predicate NameStart(c: char)
  {
    ('a' <= c <= 'z') || ('A' <= c <= 'Z') || c == '_'
  }

  predicate NameChar(c: char)
  {
    NameStart(c) || ('0' <= c <= '9') || c == '@' || c == '-'
  }

  /** A member name: a letter or `_`, optionally after one `@`, then letters, digits, `_`, `@`, `-`. */
  predicate IsName(n: string)
  {
    && |n| >= 1
    && (NameStart(n[0]) || (n[0] == '@' && |n| >= 2 && NameStart(n[1])))
    && forall i :: 0 <= i < |n| ==> NameChar(n[i])
  }

  predicate ValidSegments(segs: seq<Segment>)
  {
    forall i :: 0 <= i < |segs| ==> segs[i].Field? ==> IsName(segs[i].name)
  }

  /** The length of the longest prefix of name characters. */
  function NameRun(s: string): (n: nat)
    ensures n <= |s| && (forall i :: 0 <= i < n ==> NameChar(s[i])) && (n < |s| ==> !NameChar(s[n]))
  {
    if s == [] || !NameChar(s[0]) then 0
    else
      var n := NameRun(s[1..]);
      assert forall i :: 1 <= i < n + 1 ==> s[i] == s[1..][i - 1];
      1 + n
  }

  function Cons(seg: Segment, rest: Option<seq<Segment>>): Option<seq<Segment>>
  {
    match rest
    case None => None
    case Some(segs) => Some([seg] + segs)
  }

  /** The segments written out in `s`, or None when `s` is not a sequence of segments. */
  function Segments(s: string): (r: Option<seq<Segment>>)
    ensures r.Some? ==> ValidSegments(r.value)
    decreases |s|
  {
    if s == [] then Some([])
    else if |s| >= 2 && s[0] == '.' && s[1] == '*' then Cons(AllFields, Segments(s[2..]))
    else if s[0] == '.' then
      var n := NameRun(s[1..]);
      var name := s[1..1 + n];
      if IsName(name) then Cons(Field(name), Segments(s[1 + n..])) else None
    else if |s| >= 3 && s[0] == '[' && s[1] == '*' && s[2] == ']' then Cons(AllItems, Segments(s[3..]))
    else None
  }

  /** `parse(path)`, for the paths of this dialect; None for any other path. */
  function Parse(path: string): (r: Option<seq<Segment>>)
    ensures r.Some? ==> ValidSegments(r.value)
  {
    if path != [] && path[0] == '$' then Segments(path[1..]) else Segments("." + path)
  }

  function FormatSegments(segs: seq<Segment>): string
  {
    if segs == [] then ""
    else
      var head := match segs[0]
        case Field(n) => "." + n
        case AllFields => ".*"
        case AllItems => "[*]";
      head + FormatSegments(segs[1..])
  }

  /** The rooted text of a path. */
  function Format(segs: seq<Segment>): string
  {
    "$" + FormatSegments(segs)
  }

  /** A formatted path never continues a name. */
  lemma FormatSegmentsStart(segs: seq<Segment>)
    ensures FormatSegments(segs) == [] || FormatSegments(segs)[0] in ".["
  {
  }

  lemma {:induction false} NameRunOf(n: string, rest: string)
    requires forall i :: 0 <= i < |n| ==> NameChar(n[i])
    requires rest == [] || !NameChar(rest[0])
    ensures NameRun(n + rest) == |n|
  {
    if n == [] {
      assert n + rest == rest;
    } else {
      assert (n + rest)[0] == n[0];
      assert (n + rest)[1..] == n[1..] + rest;
      NameRunOf(n[1..], rest);
    }
  }

  /** A member name written out before the rest of a path reads back as that member. */
  lemma SegmentsField(n: string, rest: string)
    requires IsName(n)
    requires rest == [] || rest[0] in ".["
    ensures Segments("." + n + rest) == Cons(Field(n), Segments(rest))
  {
    var s := "." + n + rest;
    assert s[1..] == n + rest;
    NameRunOf(n, rest);
    assert s[1..1 + |n|] == n;
    assert s[1 + |n|..] == rest;
  }

  lemma SegmentsAllFields(rest: string)
    ensures Segments(".*" + rest) == Cons(AllFields, Segments(rest))
  {
    assert (".*" + rest)[2..] == rest;
  }

  lemma SegmentsAllItems(rest: string)
    ensures Segments("[*]" + rest) == Cons(AllItems, Segments(rest))
  {
    assert ("[*]" + rest)[3..] == rest;
  }

  lemma {:induction false} SegmentsFormat(segs: seq<Segment>)
    requires ValidSegments(segs)
    ensures Segments(FormatSegments(segs)) == Some(segs)
  {
    if segs != [] {
      var rest := FormatSegments(segs[1..]);
      assert ValidSegments(segs[1..]) by {
        forall i | 0 <= i < |segs[1..]| ensures segs[1..][i].Field? ==> IsName(segs[1..][i].name) {
          assert segs[1..][i] == segs[i + 1];
        }
      }
      SegmentsFormat(segs[1..]);
      FormatSegmentsStart(segs[1..]);
      assert segs == [segs[0]] + segs[1..];
      match segs[0]
      case Field(n) =>
        assert IsName(n);
        SegmentsField(n, rest);
      case AllFields =>
        SegmentsAllFields(rest);
      case AllItems =>
        SegmentsAllItems(rest);
    }
  }

  /** Reading a formatted path gives back its segments. */
  lemma ParseFormat(segs: seq<Segment>)
    requires ValidSegments(segs)
    ensures Parse(Format(segs)) == Some(segs)
  {
    assert Format(segs)[1..] == FormatSegments(segs);
    SegmentsFormat(segs);
  }

  /** A path without the root marker reads as the same path with it. */
  lemma RelativePath(path: string)
    requires path != [] && path[0] != '$'
    ensures Parse(path) == Parse("$." + path)
  {
    assert ("$." + path)[1..] == "." + path;
  }
}
