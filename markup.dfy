/**
  The markup primitives: the fixed regular expressions of the converter,
  written out as scanners over strings.

  Each pattern is matched the way Python's `re` module matches it: the
  leftmost match wins, lazy repetition takes the shortest span, and
  `re.sub` / `re.findall` resume scanning right after the previous match.
  Whitespace is the ASCII part of what Python treats as whitespace.
*/
module Markup {
  import opened Wrappers

  // ---------------------------------------------------------------------
  // Characters

  /** `\s` and `str.strip()` restricted to ASCII: space, \t \n \v \f \r and \x1c-\x1f. */
  predicate IsSpace(c: char)
  {
    var k := c as int;
    k == 32 || 9 <= k <= 13 || 28 <= k <= 31
  }

  predicate AllSpace(s: string)
  {
    forall i :: 0 <= i < |s| ==> IsSpace(s[i])
  }

  /** Neither end of `s` is whitespace. */
  predicate Trimmed(s: string)
  {
    s == [] || (!IsSpace(s[0]) && !IsSpace(s[|s| - 1]))
  }

  /** No character of `s` can start a tag. */
  predicate NoTagStart(s: string)
  {
    forall i :: 0 <= i < |s| ==> s[i] != '<'
  }

  function Upper(c: char): char
  {
    if 'a' <= c <= 'z' then ((c as int) - 32) as char else c
  }

  /** `c` is the lower-case letter `lower`, or its upper case when matching ignores case. */
  predicate LetterIs(c: char, lower: char, ignoreCase: bool)
  {
    c == lower || (ignoreCase && c == Upper(lower))
  }

  // ---------------------------------------------------------------------
  // str.strip()

  function TrimStart(s: string): (r: string)
    ensures |r| <= |s|
    ensures r == [] || !IsSpace(r[0])
  {
    if s != [] && IsSpace(s[0]) then TrimStart(s[1..]) else s
  }

  function TrimEnd(s: string): (r: string)
    ensures |r| <= |s| && r == s[..|r|]
    ensures r == [] || !IsSpace(r[|r| - 1])
  {
    if s != [] && IsSpace(s[|s| - 1]) then TrimEnd(s[..|s| - 1]) else s
  }

  /** `s.strip()`: `s` minus its leading and trailing whitespace. */
  function Trim(s: string): (r: string)
    ensures Trimmed(r)
  {
    var t := TrimStart(s);
    var r := TrimEnd(t);
    assert r != [] ==> r[0] == t[0];
    r
  }

  lemma {:induction false} TrimStartSkips(lead: string, rest: string)
    requires AllSpace(lead) && (rest == [] || !IsSpace(rest[0]))
    ensures TrimStart(lead + rest) == rest
  {
    if lead == [] {
      assert lead + rest == rest;
    } else {
      assert (lead + rest)[0] == lead[0];
      assert (lead + rest)[1..] == lead[1..] + rest;
      TrimStartSkips(lead[1..], rest);
    }
  }

  lemma {:induction false} TrimEndSkips(rest: string, trail: string)
    requires AllSpace(trail) && (rest == [] || !IsSpace(rest[|rest| - 1]))
    ensures TrimEnd(rest + trail) == rest
    decreases |trail|
  {
    var s := rest + trail;
    if trail == [] {
      assert s == rest;
    } else {
      assert s[|s| - 1] == trail[|trail| - 1];
      assert s[..|s| - 1] == rest + trail[..|trail| - 1];
      TrimEndSkips(rest, trail[..|trail| - 1]);
    }
  }

  /**
    Any split of `s` into whitespace, a middle with no whitespace at its
    ends, and whitespace, has `Trim(s)` as its middle.
  */
  lemma TrimUnique(s: string, lead: string, middle: string, trail: string)
    requires s == lead + middle + trail
    requires AllSpace(lead) && AllSpace(trail) && Trimmed(middle)
    ensures Trim(s) == middle
  {
    if middle == [] {
      assert s == lead + trail + [];
      assert AllSpace(lead + trail);
      TrimStartSkips(lead + trail, []);
      assert TrimEnd([]) == [];
    } else {
      assert s == lead + (middle + trail);
      assert (middle + trail)[0] == middle[0];
      TrimStartSkips(lead, middle + trail);
      TrimEndSkips(middle, trail);
    }
  }

  /** Stripping twice is stripping once. */
  lemma TrimIdempotent(s: string)
    ensures Trim(Trim(s)) == Trim(s)
  {
    var t := Trim(s);
    assert t == [] + t + [];
    TrimUnique(t, [], t, []);
  }

  // ---------------------------------------------------------------------
  // The tag patterns

  // The tag patterns of the converter:
  //   BoldOpen       <\s*b\s*>        (always case-insensitive)
  //   BoldClose      <\s*/\s*b\s*>    (always case-insensitive)
  //   LineBreak(ci)  </?br>
  //   Paragraph(ci)  </?p>
  // where `ci` says whether the pattern was compiled with IGNORECASE.
  datatype Tag = BoldOpen | BoldClose | LineBreak(ignoreCase: bool) | Paragraph(ignoreCase: bool)

  /** The first position at or after `i` that does not hold whitespace (`|s|` when there is none). */
  function SkipSpaces(s: string, i: nat): (j: nat)
    requires i <= |s|
    ensures i <= j <= |s|
    decreases |s| - i
  {
    if i < |s| && IsSpace(s[i]) then SkipSpaces(s, i + 1) else i
  }

  /** The end of a match of `\s*` and then the character `lower` (either case) from position `i`; 0 when there is none. */
  function SpacesThen(s: string, i: nat, lower: char): (j: nat)
    requires i <= |s|
    ensures j == 0 || i < j <= |s|
  {
    var k := SkipSpaces(s, i);
    if k < |s| && LetterIs(s[k], lower, true) then k + 1 else 0
  }

  /** The end of the match of `<\s*b\s*>` at the start of `s` (a `<`), or 0. */
  function BoldOpenEnd(s: string): (m: nat)
    requires s != []
    ensures m == 0 || 3 <= m <= |s|
  {
    var a := SpacesThen(s, 1, 'b');
    if a == 0 then 0 else SpacesThen(s, a, '>')
  }

  /** The end of the match of the closing-bold pattern (`<`, `/`, `b`, `>` with optional whitespace between) at the start of `s`, or 0. */
  function BoldCloseEnd(s: string): (m: nat)
    requires s != []
    ensures m == 0 || 4 <= m <= |s|
  {
    var a := SpacesThen(s, 1, '/');
    if a == 0 then 0
    else
      var b := SpacesThen(s, a, 'b');
      if b == 0 then 0 else SpacesThen(s, b, '>')
  }

  /** The end of the match of `</?br>` at the start of `s` (a `<`), or 0. */
  function LineBreakEnd(s: string, ignoreCase: bool): (m: nat)
    requires s != []
    ensures m == 0 || 4 <= m <= |s|
  {
    var a := if |s| > 1 && s[1] == '/' then 2 else 1;
    if a + 2 < |s| && LetterIs(s[a], 'b', ignoreCase) && LetterIs(s[a + 1], 'r', ignoreCase) && s[a + 2] == '>'
    then a + 3 else 0
  }

  /** The end of the match of `</?p>` at the start of `s` (a `<`), or 0. */
  function ParagraphEnd(s: string, ignoreCase: bool): (m: nat)
    requires s != []
    ensures m == 0 || 3 <= m <= |s|
  {
    var a := if |s| > 1 && s[1] == '/' then 2 else 1;
    if a + 1 < |s| && LetterIs(s[a], 'p', ignoreCase) && s[a + 1] == '>' then a + 2 else 0
  }

  /**
    The length of the match of `t` at the very start of `s`; 0 when there
    is none (every tag is at least three characters long).
  */
  function MatchTag(t: Tag, s: string): (m: nat)
    ensures m == 0 || (3 <= m <= |s| && s[0] == '<')
  {
    if s == [] || s[0] != '<' then 0
    else
      match t
      case BoldOpen => BoldOpenEnd(s)
      case BoldClose => BoldCloseEnd(s)
      case LineBreak(ci) => LineBreakEnd(s, ci)
      case Paragraph(ci) => ParagraphEnd(s, ci)
  }

  /** `re.sub(t, replacement, s)`: every leftmost non-overlapping match of `t` is replaced. */
  function Substitute(s: string, t: Tag, replacement: string): string
    decreases |s|
  {
    if s == [] then []
    else
      var m := MatchTag(t, s);
      if m > 0 then replacement + Substitute(s[m..], t, replacement)
      else [s[0]] + Substitute(s[1..], t, replacement)
  }

  lemma SubstituteMatched(s: string, t: Tag, replacement: string)
    requires MatchTag(t, s) > 0
    ensures Substitute(s, t, replacement) == replacement + Substitute(s[MatchTag(t, s)..], t, replacement)
  {
  }

  /** A character that cannot start a tag is copied, and scanning moves on by one. */
  lemma SubstituteSkip(s: string, t: Tag, replacement: string)
    requires s != [] && s[0] != '<'
    ensures Substitute(s, t, replacement) == [s[0]] + Substitute(s[1..], t, replacement)
  {
  }

  /** Text with no `<` at all is left as it is by every substitution. */
  lemma {:induction false} SubstituteNoTag(s: string, t: Tag, replacement: string)
    requires NoTagStart(s)
    ensures Substitute(s, t, replacement) == s
    decreases |s|
  {
    if s != [] {
      SubstituteSkip(s, t, replacement);
      assert NoTagStart(s[1..]) by {
        forall i | 0 <= i < |s[1..]| ensures s[1..][i] != '<' {
          assert s[1..][i] == s[i + 1];
        }
      }
      SubstituteNoTag(s[1..], t, replacement);
      assert s == [s[0]] + s[1..];
    }
  }

  /** Text without `<` in front of the rest is copied, and the rest is substituted on its own. */
  lemma {:induction false} SubstitutePlainPrefix(u: string, v: string, t: Tag, replacement: string)
    requires NoTagStart(u)
    ensures Substitute(u + v, t, replacement) == u + Substitute(v, t, replacement)
    decreases |u|
  {
    if u == [] {
      assert u + v == v;
    } else {
      ConsShape(u, v);
      NoTagStartTail(u);
      SubstituteSkip(u + v, t, replacement);
      SubstitutePlainPrefix(u[1..], v, t, replacement);
      ConsShape(u, Substitute(v, t, replacement));
    }
  }

  lemma ConsShape(u: string, w: string)
    requires u != []
    ensures (u + w)[0] == u[0] && (u + w)[1..] == u[1..] + w
    ensures [u[0]] + (u[1..] + w) == u + w
  {
  }

  lemma NoTagStartTail(u: string)
    requires u != [] && NoTagStart(u)
    ensures NoTagStart(u[1..]) && u[0] != '<'
  {
    forall i | 0 <= i < |u[1..]| ensures u[1..][i] != '<' {
      assert u[1..][i] == u[i + 1];
    }
  }

  /** A piece whose `<` starts no match of `t`, and which holds no other `<`, is copied. */
  lemma KeptPiece(p: string, v: string, t: Tag, replacement: string)
    requires p != [] && MatchTag(t, p + v) == 0 && NoTagStart(p[1..])
    ensures Substitute(p + v, t, replacement) == p + Substitute(v, t, replacement)
  {
    ConsShape(p, v);
    SubstituteUnmatched(p + v, t, replacement);
    SubstitutePlainPrefix(p[1..], v, t, replacement);
    ConsShape(p, Substitute(v, t, replacement));
  }

  /** Whitespace from `i` for `n` characters, then something else. */
  predicate SpacesFor(s: string, i: nat, n: nat)
  {
    && i + n < |s| && !IsSpace(s[i + n])
    && forall k :: i <= k < i + n ==> IsSpace(s[k])
  }

  lemma {:induction false} SkipSpacesOver(s: string, i: nat, n: nat)
    requires SpacesFor(s, i, n)
    ensures SkipSpaces(s, i) == i + n
    decreases n
  {
    if n > 0 {
      SkipSpacesOver(s, i + 1, n - 1);
    }
  }

  lemma SpacesThenOver(s: string, i: nat, n: nat, lower: char)
    requires SpacesFor(s, i, n) && LetterIs(s[i + n], lower, true)
    ensures SpacesThen(s, i, lower) == i + n + 1
  {
    SkipSpacesOver(s, i, n);
  }

  /** Where the parts of `<`, whitespace, the letter, whitespace, `>` lie in the text. */
  lemma BoldOpenShape(w1: string, c: char, w2: string, v: string)
    requires AllSpace(w1) && AllSpace(w2) && (c == 'b' || c == 'B')
    ensures var s := "<" + w1 + [c] + w2 + ">" + v;
      && s[0] == '<' && SpacesFor(s, 1, |w1|) && s[1 + |w1|] == c
      && SpacesFor(s, 2 + |w1|, |w2|) && s[2 + |w1| + |w2|] == '>'
      && s[3 + |w1| + |w2|..] == v
  {
    var s := "<" + w1 + [c] + w2 + ">" + v;
    assert forall k :: 1 <= k < 1 + |w1| ==> s[k] == w1[k - 1];
    assert forall k :: 2 + |w1| <= k < 2 + |w1| + |w2| ==> s[k] == w2[k - 2 - |w1|];
  }

  lemma BoldOpenMatchAt(s: string, n1: nat, n2: nat)
    requires s != [] && s[0] == '<'
    requires SpacesFor(s, 1, n1) && LetterIs(s[1 + n1], 'b', true)
    requires SpacesFor(s, 2 + n1, n2) && s[2 + n1 + n2] == '>'
    ensures MatchTag(BoldOpen, s) == n1 + n2 + 3
  {
    SpacesThenOver(s, 1, n1, 'b');
    SpacesThenOver(s, 2 + n1, n2, '>');
  }

  /**
    `<b>`, `<B>`, `< b >` and every other spelling with whitespace around
    the letter become `<strong>`; scanning resumes after the tag.
  */
  lemma BoldOpenReplaced(w1: string, c: char, w2: string, v: string)
    requires AllSpace(w1) && AllSpace(w2) && (c == 'b' || c == 'B')
    ensures Substitute("<" + w1 + [c] + w2 + ">" + v, BoldOpen, "<strong>")
         == "<strong>" + Substitute(v, BoldOpen, "<strong>")
  {
    var s := "<" + w1 + [c] + w2 + ">" + v;
    BoldOpenShape(w1, c, w2, v);
    BoldOpenMatchAt(s, |w1|, |w2|);
    SubstituteMatched(s, BoldOpen, "<strong>");
  }

  /** Where the parts of `<`, whitespace, `/`, whitespace, the letter, whitespace, `>` lie in the text. */
  lemma BoldCloseShape(w1: string, w2: string, c: char, w3: string, v: string)
    requires AllSpace(w1) && AllSpace(w2) && AllSpace(w3) && (c == 'b' || c == 'B')
    ensures var s := "<" + w1 + "/" + w2 + [c] + w3 + ">" + v;
      && s[0] == '<' && SpacesFor(s, 1, |w1|) && s[1 + |w1|] == '/'
      && SpacesFor(s, 2 + |w1|, |w2|) && s[2 + |w1| + |w2|] == c
      && SpacesFor(s, 3 + |w1| + |w2|, |w3|) && s[3 + |w1| + |w2| + |w3|] == '>'
      && s[4 + |w1| + |w2| + |w3|..] == v
  {
    var s := "<" + w1 + "/" + w2 + [c] + w3 + ">" + v;
    assert forall k :: 1 <= k < 1 + |w1| ==> s[k] == w1[k - 1];
    assert forall k :: 2 + |w1| <= k < 2 + |w1| + |w2| ==> s[k] == w2[k - 2 - |w1|];
    assert forall k :: 3 + |w1| + |w2| <= k < 3 + |w1| + |w2| + |w3| ==> s[k] == w3[k - 3 - |w1| - |w2|];
  }

  lemma BoldCloseMatchAt(s: string, n1: nat, n2: nat, n3: nat)
    requires s != [] && s[0] == '<'
    requires SpacesFor(s, 1, n1) && s[1 + n1] == '/'
    requires SpacesFor(s, 2 + n1, n2) && LetterIs(s[2 + n1 + n2], 'b', true)
    requires SpacesFor(s, 3 + n1 + n2, n3) && s[3 + n1 + n2 + n3] == '>'
    ensures MatchTag(BoldClose, s) == n1 + n2 + n3 + 4
  {
    SpacesThenOver(s, 1, n1, '/');
    SpacesThenOver(s, 2 + n1, n2, 'b');
    SpacesThenOver(s, 3 + n1 + n2, n3, '>');
  }

  /** `</b>`, `</B>`, `< / b >` and the like become `</strong>`. */
  lemma BoldCloseReplaced(w1: string, w2: string, c: char, w3: string, v: string)
    requires AllSpace(w1) && AllSpace(w2) && AllSpace(w3) && (c == 'b' || c == 'B')
    ensures Substitute("<" + w1 + "/" + w2 + [c] + w3 + ">" + v, BoldClose, "</strong>")
         == "</strong>" + Substitute(v, BoldClose, "</strong>")
  {
    var s := "<" + w1 + "/" + w2 + [c] + w3 + ">" + v;
    BoldCloseShape(w1, w2, c, w3, v);
    BoldCloseMatchAt(s, |w1|, |w2|, |w3|);
    SubstituteMatched(s, BoldClose, "</strong>");
  }

  /** `tag` is `<p>` or `</p>`, the letter spelled as `ignoreCase` allows. */
  predicate IsParagraphTag(tag: string, ignoreCase: bool)
  {
    || (|tag| == 3 && tag[0] == '<' && LetterIs(tag[1], 'p', ignoreCase) && tag[2] == '>')
    || (|tag| == 4 && tag[0] == '<' && tag[1] == '/' && LetterIs(tag[2], 'p', ignoreCase) && tag[3] == '>')
  }

  /** `tag` is `<br>` or `</br>`, the letters spelled as `ignoreCase` allows. */
  predicate IsLineBreakTag(tag: string, ignoreCase: bool)
  {
    || (|tag| == 4 && tag[0] == '<' && LetterIs(tag[1], 'b', ignoreCase)
        && LetterIs(tag[2], 'r', ignoreCase) && tag[3] == '>')
    || (|tag| == 5 && tag[0] == '<' && tag[1] == '/' && LetterIs(tag[2], 'b', ignoreCase)
        && LetterIs(tag[3], 'r', ignoreCase) && tag[4] == '>')
  }

  /** `<p>`, `</p>` (and, ignoring case, `<P>`, `</P>`) are deleted. */
  lemma ParagraphTagDeleted(tag: string, v: string, ignoreCase: bool)
    requires IsParagraphTag(tag, ignoreCase)
    ensures Substitute(tag + v, Paragraph(ignoreCase), "") == Substitute(v, Paragraph(ignoreCase), "")
  {
    var s := tag + v;
    assert s[..|tag|] == tag;
    assert forall i :: 0 <= i < |tag| ==> s[i] == tag[i];
    assert MatchTag(Paragraph(ignoreCase), s) == |tag|;
    assert s[|tag|..] == v;
  }

  /** `<br>`, `</br>` (and, ignoring case, `<BR>`, `</Br>`, ...) are deleted. */
  lemma LineBreakTagDeleted(tag: string, v: string, ignoreCase: bool)
    requires IsLineBreakTag(tag, ignoreCase)
    ensures Substitute(tag + v, LineBreak(ignoreCase), "") == Substitute(v, LineBreak(ignoreCase), "")
  {
    var s := tag + v;
    assert forall i :: 0 <= i < |tag| ==> s[i] == tag[i];
    assert MatchTag(LineBreak(ignoreCase), s) == |tag|;
    assert s[|tag|..] == v;
  }

  /** A case-sensitive paragraph pattern does not see `<P>`. */
  lemma UpperParagraphKeptWhenCaseSensitive(v: string)
    ensures Substitute("<P>" + v, Paragraph(false), "") == "<" + Substitute("P>" + v, Paragraph(false), "")
  {
    var s := "<P>" + v;
    assert s[1..] == "P>" + v;
  }

  // ---------------------------------------------------------------------
  // get_sanitised_text / remove_and_replace_tags

  /**
    `<b>` tags become `<strong>` tags: the opening tags in one pass over
    the text, then the closing tags in a second pass.
  */
  function Embolden(s: string): string
  {
    Substitute(Substitute(s, BoldOpen, "<strong>"), BoldClose, "</strong>")
  }

  /** Text without markup passes `replace_b_with_strong` unchanged. */
  lemma EmboldenPlain(s: string)
    requires NoTagStart(s)
    ensures Embolden(s) == s
  {
    SubstituteNoTag(s, BoldOpen, "<strong>");
    SubstituteNoTag(s, BoldClose, "</strong>");
  }

  /**
    A span `<b>x</b>` (either tag in either case) at the start becomes
    `<strong>x</strong>`, and the rest of the text is converted on its own.
  */
  lemma EmboldenSpan(c1: char, x: string, c2: char, y: string)
    requires (c1 == 'b' || c1 == 'B') && (c2 == 'b' || c2 == 'B') && NoTagStart(x)
    ensures Embolden("<" + [c1] + ">" + x + "</" + [c2] + ">" + y)
         == "<strong>" + x + "</strong>" + Embolden(y)
  {
    SpanShape(c1, x, c2, y);
    OpeningPass(c1, x, c2, y);
    var y1 := Substitute(y, BoldOpen, "<strong>");
    ClosingPass(x, c2, y1);
    StrongShape(x, Substitute(y1, BoldClose, "</strong>"));
  }

  /** The opening pass over `<b>x</b>y`: only the first tag is replaced. */
  lemma OpeningPass(c1: char, x: string, c2: char, y: string)
    requires (c1 == 'b' || c1 == 'B') && (c2 == 'b' || c2 == 'B') && NoTagStart(x)
    ensures Substitute("<" + [] + [c1] + [] + ">" + (x + ("</" + [c2] + ">" + y)), BoldOpen, "<strong>")
         == "<strong>" + (x + ("</" + [c2] + ">" + Substitute(y, BoldOpen, "<strong>")))
  {
    var close := "</" + [c2] + ">";
    BoldOpenReplaced([], c1, [], x + (close + y));
    SubstitutePlainPrefix(x, close + y, BoldOpen, "<strong>");
    CloseNotOpening(c2, y);
    KeptPiece(close, y, BoldOpen, "<strong>");
  }

  /** The closing pass over `<strong>x</b>y`: only the closing tag is replaced. */
  lemma ClosingPass(x: string, c2: char, y: string)
    requires (c2 == 'b' || c2 == 'B') && NoTagStart(x)
    ensures Substitute("<strong>" + (x + ("</" + [c2] + ">" + y)), BoldClose, "</strong>")
         == "<strong>" + (x + ("</strong>" + Substitute(y, BoldClose, "</strong>")))
  {
    var close := "</" + [c2] + ">";
    StrongNotClosing(x + (close + y));
    KeptPiece("<strong>", x + (close + y), BoldClose, "</strong>");
    SubstitutePlainPrefix(x, close + y, BoldClose, "</strong>");
    ReplacedShape(c2, y);
    BoldCloseReplaced([], [], c2, [], y);
  }

  lemma SpanShape(c1: char, x: string, c2: char, y: string)
    ensures "<" + [c1] + ">" + x + "</" + [c2] + ">" + y
         == "<" + [] + [c1] + [] + ">" + (x + ("</" + [c2] + ">" + y))
  {
  }

  lemma ReplacedShape(c2: char, y: string)
    ensures "</" + [c2] + ">" + y == "<" + [] + "/" + [] + [c2] + [] + ">" + y
  {
  }

  lemma StrongShape(x: string, z: string)
    ensures "<strong>" + (x + ("</strong>" + z)) == "<strong>" + x + "</strong>" + z
  {
  }

  /** A closing bold tag does not match the opening pattern. */
  lemma CloseNotOpening(c2: char, y: string)
    requires c2 == 'b' || c2 == 'B'
    ensures MatchTag(BoldOpen, "</" + [c2] + ">" + y) == 0 && NoTagStart(("</" + [c2] + ">")[1..])
  {
    var s := "</" + [c2] + ">" + y;
    assert s[1] == '/';
    assert SkipSpaces(s, 1) == 1;
  }

  /** `<strong>` does not match the closing pattern. */
  lemma StrongNotClosing(v: string)
    ensures MatchTag(BoldClose, "<strong>" + v) == 0 && NoTagStart("<strong>"[1..])
  {
    var s := "<strong>" + v;
    assert s[1] == 's';
    assert SkipSpaces(s, 1) == 1;
  }

  /** Markup-free text in front of the rest is kept by `replace_b_with_strong`. */
  lemma EmboldenPlainPrefix(u: string, w: string)
    requires NoTagStart(u)
    ensures Embolden(u + w) == u + Embolden(w)
  {
    SubstitutePlainPrefix(u, w, BoldOpen, "<strong>");
    SubstitutePlainPrefix(u, Substitute(w, BoldOpen, "<strong>"), BoldClose, "</strong>");
  }

  lemma EmboldenInside(a: string, b: string, c: string)
    requires NoTagStart(a) && NoTagStart(b) && NoTagStart(c)
    ensures Embolden(a + "<b>" + b + "</b>" + c) == a + "<strong>" + b + "</strong>" + c
  {
    InsideShape(a, b, c);
    EmboldenPlainPrefix(a, "<" + ['b'] + ">" + b + "</" + ['b'] + ">" + c);
    EmboldenSpan('b', b, 'b', c);
    EmboldenPlain(c);
  }

  lemma InsideShape(a: string, b: string, c: string)
    ensures a + "<b>" + b + "</b>" + c == a + ("<" + ['b'] + ">" + b + "</" + ['b'] + ">" + c)
    ensures a + ("<strong>" + b + "</strong>" + c) == a + "<strong>" + b + "</strong>" + c
  {
  }

  /**
    The sanitiser: `<b>` tags become `<strong>` tags, then `<br>` and `<p>`
    tags (either case) are deleted, each as a separate pass over the whole
    text, and the result is stripped.
  */
  function Sanitise(s: string): (r: string)
    ensures Trimmed(r)
  {
    Trim(Substitute(Substitute(Embolden(s), LineBreak(true), ""), Paragraph(true), ""))
  }

  /**
    The whole sanitiser on a bold span in plain text: the span becomes a
    `<strong>` span, the line-break and paragraph passes leave the strong
    tags alone, and the result is stripped.
  */
  lemma SanitiseBold(u: string, x: string, w: string)
    requires NoTagStart(u) && NoTagStart(x) && NoTagStart(w)
    ensures Sanitise(u + "<b>" + x + "</b>" + w) == Trim(u + "<strong>" + x + "</strong>" + w)
  {
    EmboldenInside(u, x, w);
    StrongKept(u, x, w, LineBreak(true));
    StrongKept(u, x, w, Paragraph(true));
  }

  /** The line-break and paragraph passes copy a strong span in plain text. */
  lemma StrongKept(u: string, x: string, w: string, t: Tag)
    requires t.LineBreak? || t.Paragraph?
    requires NoTagStart(u) && NoTagStart(x) && NoTagStart(w)
    ensures Substitute(u + "<strong>" + x + "</strong>" + w, t, "") == u + "<strong>" + x + "</strong>" + w
  {
    var tail := "</strong>" + w;
    var mid := "<strong>" + (x + tail);
    StrongShapes(u, x, w);
    SubstitutePlainPrefix(u, mid, t, "");
    StrongUnmatched(t, x + tail);
    KeptPiece("<strong>", x + tail, t, "");
    SubstitutePlainPrefix(x, tail, t, "");
    StrongUnmatched(t, w);
    KeptPiece("</strong>", w, t, "");
    SubstituteNoTag(w, t, "");
  }

  lemma StrongShapes(u: string, x: string, w: string)
    ensures u + "<strong>" + x + "</strong>" + w == u + ("<strong>" + (x + ("</strong>" + w)))
  {
  }

  /** Neither strong tag matches a line-break or paragraph pattern. */
  lemma StrongUnmatched(t: Tag, v: string)
    requires t.LineBreak? || t.Paragraph?
    ensures MatchTag(t, "<strong>" + v) == 0 && NoTagStart("<strong>"[1..])
    ensures MatchTag(t, "</strong>" + v) == 0 && NoTagStart("</strong>"[1..])
  {
    var s := "<strong>" + v;
    var c := "</strong>" + v;
    assert s[1] == 's' && s[2] == 't';
    assert c[1] == '/' && c[2] == 's' && c[3] == 't';
  }

  /** Markup-free text is only stripped. */
  lemma SanitiseTagFree(s: string)
    requires NoTagStart(s)
    ensures Sanitise(s) == Trim(s)
  {
    SubstituteNoTag(s, BoldOpen, "<strong>");
    SubstituteNoTag(s, BoldClose, "</strong>");
    SubstituteNoTag(s, LineBreak(true), "");
    SubstituteNoTag(s, Paragraph(true), "");
  }

  /**
    The sanitiser is not idempotent: deleting the tag inside `<<p>p>` (or
    `<</p>/p>`) joins its neighbours into a new tag, which a second
    sanitisation deletes.
  */
  lemma SanitiseNotIdempotent(tag: string)
    requires IsParagraphTag(tag, true)
    ensures Sanitise("<" + tag + tag[1..]) == tag
    ensures Sanitise(Sanitise("<" + tag + tag[1..])) == ""
  {
    SanitiseJoinsTag(tag);
    SanitiseTag(tag);
  }

  lemma SanitiseJoinsTag(tag: string)
    requires IsParagraphTag(tag, true)
    ensures Sanitise("<" + tag + tag[1..]) == tag
  {
    JoinedTagPasses(tag);
    SanitiseOnlyParagraphs("<" + tag + tag[1..], tag);
  }

  /** Each pass of the sanitiser over `<<p>p>`: only the paragraph pass changes it. */
  lemma JoinedTagPasses(tag: string)
    requires IsParagraphTag(tag, true)
    ensures Substitute("<" + tag + tag[1..], BoldOpen, "<strong>") == "<" + tag + tag[1..]
    ensures Substitute("<" + tag + tag[1..], BoldClose, "</strong>") == "<" + tag + tag[1..]
    ensures Substitute("<" + tag + tag[1..], LineBreak(true), "") == "<" + tag + tag[1..]
    ensures Substitute("<" + tag + tag[1..], Paragraph(true), "") == tag && Trimmed(tag)
  {
    JoinedTagKept(tag, BoldOpen, "<strong>");
    JoinedTagKept(tag, BoldClose, "</strong>");
    JoinedTagKept(tag, LineBreak(true), "");
    JoinedTagParagraphPass(tag);
    ParagraphTail(tag, true);
  }

  /** A text where no match of `t` starts at its first character moves on by one character. */
  lemma SubstituteUnmatched(s: string, t: Tag, replacement: string)
    requires s != [] && MatchTag(t, s) == 0
    ensures Substitute(s, t, replacement) == [s[0]] + Substitute(s[1..], t, replacement)
  {
  }

  /** A bold or line-break pattern never matches at `<<`, `<p` or `</p`. */
  lemma NoMatchBeforeParagraph(t: Tag, x: string)
    requires |x| >= 3 && x[0] == '<' && !t.Paragraph?
    requires x[1] == '<' || LetterIs(x[1], 'p', true) || (x[1] == '/' && LetterIs(x[2], 'p', true))
    ensures MatchTag(t, x) == 0
  {
    assert SkipSpaces(x, 1) == 1;
    if x[1] == '/' {
      assert SkipSpaces(x, 2) == 2;
    }
  }

  /** A text whose only `<` is its first character, with no match there, is left as it is. */
  lemma KeptWhenUnmatched(y: string, t: Tag, replacement: string)
    requires y != [] && MatchTag(t, y) == 0 && NoTagStart(y[1..])
    ensures Substitute(y, t, replacement) == y
  {
    SubstituteUnmatched(y, t, replacement);
    SubstituteNoTag(y[1..], t, replacement);
    assert y == [y[0]] + y[1..];
  }

  lemma ParagraphTail(tag: string, ignoreCase: bool)
    requires IsParagraphTag(tag, ignoreCase)
    ensures NoTagStart(tag[1..]) && tag == "<" + tag[1..] && Trimmed(tag)
  {
  }

  /** `<<p>p>` holds no bold or line-break tag. */
  lemma JoinedTagKept(tag: string, t: Tag, replacement: string)
    requires IsParagraphTag(tag, true) && !t.Paragraph?
    ensures Substitute("<" + tag + tag[1..], t, replacement) == "<" + tag + tag[1..]
  {
    var s := "<" + tag + tag[1..];
    var y := tag + tag[1..];
    ParagraphTail(tag, true);
    assert s[1..] == y && s == [s[0]] + y;
    NoMatchBeforeParagraph(t, s);
    NoMatchBeforeParagraph(t, y);
    assert NoTagStart(y[1..]) by {
      assert y[1..] == tag[1..] + tag[1..];
    }
    KeptWhenUnmatched(y, t, replacement);
    SubstituteUnmatched(s, t, replacement);
  }

  lemma JoinedTagParagraphPass(tag: string)
    requires IsParagraphTag(tag, true)
    ensures Substitute("<" + tag + tag[1..], Paragraph(true), "") == tag
  {
    var s := "<" + tag + tag[1..];
    var y := tag + tag[1..];
    ParagraphTail(tag, true);
    assert s[1..] == y && s[1] == '<';
    assert MatchTag(Paragraph(true), s) == 0;
    SubstituteUnmatched(s, Paragraph(true), "");
    ParagraphTagDeleted(tag, tag[1..], true);
    SubstituteNoTag(tag[1..], Paragraph(true), "");
  }

  lemma SanitiseOnlyParagraphs(s: string, x: string)
    requires Substitute(s, BoldOpen, "<strong>") == s && Substitute(s, BoldClose, "</strong>") == s
    requires Substitute(s, LineBreak(true), "") == s
    requires Substitute(s, Paragraph(true), "") == x && Trimmed(x)
    ensures Sanitise(s) == x
  {
    TrimUnique(x, [], x, []);
  }

  /** A lone `<p>` or `</p>` sanitises to nothing. */
  lemma SanitiseTag(tag: string)
    requires IsParagraphTag(tag, true)
    ensures Sanitise(tag) == ""
  {
    ParagraphTail(tag, true);
    NoMatchBeforeParagraph(BoldOpen, tag);
    KeptWhenUnmatched(tag, BoldOpen, "<strong>");
    NoMatchBeforeParagraph(BoldClose, tag);
    KeptWhenUnmatched(tag, BoldClose, "</strong>");
    NoMatchBeforeParagraph(LineBreak(true), tag);
    KeptWhenUnmatched(tag, LineBreak(true), "");
    ParagraphTagDeleted(tag, "", true);
    assert tag + "" == tag;
    TrimUnique("", [], "", []);
  }

  /** The pieces one after the other, with nothing between them. */
  function Concat(ps: seq<string>): string
  {
    if ps == [] then "" else ps[0] + Concat(ps[1..])
  }

  /**
    Plain pieces wrapped in paragraph tags: the bold and line-break passes
    find nothing, the paragraph pass deletes every tag, and what is left
    is the pieces run together, stripped as one text.
  */
  lemma SanitiseWrapped(ps: seq<string>)
    requires forall i :: 0 <= i < |ps| ==> NoTagStart(ps[i])
    ensures Sanitise(Wrap(ps)) == Trim(Concat(ps))
  {
    WrapKept(ps, BoldOpen, "<strong>");
    WrapKept(ps, BoldClose, "</strong>");
    WrapKept(ps, LineBreak(true), "");
    WrapUnwrapped(ps);
  }

  lemma WrapShape(ps: seq<string>)
    requires ps != []
    ensures Wrap(ps) == "<p>" + (ps[0] + ("</p>" + Wrap(ps[1..])))
    ensures Concat(ps) == ps[0] + Concat(ps[1..])
  {
  }

  /** A bold or line-break pattern finds nothing in wrapped plain pieces. */
  lemma {:induction false} WrapKept(ps: seq<string>, t: Tag, replacement: string)
    requires !t.Paragraph?
    requires forall i :: 0 <= i < |ps| ==> NoTagStart(ps[i])
    ensures Substitute(Wrap(ps), t, replacement) == Wrap(ps)
  {
    if ps != [] {
      var p, rest := ps[0], Wrap(ps[1..]);
      var close := "</p>" + rest;
      WrapShape(ps);
      assert close[0] == '<' && close[1] == '/' && close[2] == 'p';
      NoMatchBeforeParagraph(t, close);
      KeptPiece("</p>", rest, t, replacement);
      WrapKept(ps[1..], t, replacement);
      SubstitutePlainPrefix(p, close, t, replacement);
      var open := "<p>" + (p + close);
      assert open[0] == '<' && open[1] == 'p' && |open| >= 3;
      NoMatchBeforeParagraph(t, open);
      KeptPiece("<p>", p + close, t, replacement);
    }
  }

  /** The paragraph pass deletes every tag of wrapped plain pieces. */
  lemma {:induction false} WrapUnwrapped(ps: seq<string>)
    requires forall i :: 0 <= i < |ps| ==> NoTagStart(ps[i])
    ensures Substitute(Wrap(ps), Paragraph(true), "") == Concat(ps)
  {
    if ps != [] {
      var p, rest := ps[0], Wrap(ps[1..]);
      WrapShape(ps);
      ParagraphTagDeleted("<p>", p + ("</p>" + rest), true);
      SubstitutePlainPrefix(p, "</p>" + rest, Paragraph(true), "");
      ParagraphTagDeleted("</p>", rest, true);
      WrapUnwrapped(ps[1..]);
    }
  }

  // ---------------------------------------------------------------------
  // <p>(.*?)</p>  with DOTALL

  predicate OpensParagraph(s: string, ignoreCase: bool)
  {
    |s| >= 3 && s[0] == '<' && LetterIs(s[1], 'p', ignoreCase) && s[2] == '>'
  }

  predicate ClosesParagraph(s: string, ignoreCase: bool)
  {
    |s| >= 4 && s[0] == '<' && s[1] == '/' && LetterIs(s[2], 'p', ignoreCase) && s[3] == '>'
  }

  predicate TagAt(s: string, closing: bool, ignoreCase: bool)
  {
    if closing then ClosesParagraph(s, ignoreCase) else OpensParagraph(s, ignoreCase)
  }

  /** The number of characters of an opening (3) or closing (4) paragraph tag. */
  function TagLength(closing: bool): nat
  {
    if closing then 4 else 3
  }

  /** The leftmost position of an opening (or closing) paragraph tag in `s`. */
  function FindTag(s: string, closing: bool, ignoreCase: bool): (r: Option<nat>)
    ensures r.Some? ==> r.value + TagLength(closing) <= |s|
    decreases |s|
  {
    if s == [] then None
    else if TagAt(s, closing, ignoreCase) then Some(0)
    else
      match FindTag(s[1..], closing, ignoreCase)
      case None => None
      case Some(k) => Some(k + 1)
  }

  /** What `FindTag` finds is a tag, and no tag starts before it. */
  lemma {:induction false} FindTagLeftmost(s: string, closing: bool, ignoreCase: bool)
    ensures FindTag(s, closing, ignoreCase).Some? ==>
              TagAt(s[FindTag(s, closing, ignoreCase).value..], closing, ignoreCase)
    ensures forall j :: 0 <= j < |s| && (FindTag(s, closing, ignoreCase).Some? ==> j < FindTag(s, closing, ignoreCase).value)
              ==> !TagAt(s[j..], closing, ignoreCase)
    decreases |s|
  {
    if s != [] && !TagAt(s, closing, ignoreCase) {
      FindTagLeftmost(s[1..], closing, ignoreCase);
      assert forall j :: 1 <= j < |s| ==> s[j..] == s[1..][j - 1..];
    }
  }

  /** `s` holds no closing paragraph tag anywhere. */
  predicate NoClosingTag(s: string, ignoreCase: bool)
  {
    forall i :: 0 <= i < |s| ==> !ClosesParagraph(s[i..], ignoreCase)
  }

  /**
    `re.findall(r"<p>(.*?)</p>", s)`: the inner text of every match,
    left to right. A match starts at the leftmost `<p>` and ends at the
    first `</p>` after it; when that `<p>` has no `</p>` after it, no later
    one has either and the scan ends.
  */
  function RawParagraphs(s: string, ignoreCase: bool): seq<string>
    decreases |s|, 1
  {
    match FindTag(s, false, ignoreCase)
    case None => []
    case Some(j) => ParagraphsFrom(s[j + 3..], ignoreCase)
  }

  /** The matches that start with the span after an opening tag: it reaches the first closing tag, if any. */
  function ParagraphsFrom(body: string, ignoreCase: bool): seq<string>
    decreases |body|, 0
  {
    match FindTag(body, true, ignoreCase)
    case None => []
    case Some(k) => [body[..k]] + RawParagraphs(body[k + 4..], ignoreCase)
  }

  /** The scan from the leftmost opening tag. */
  lemma OpenStep(s: string, j: nat, ignoreCase: bool)
    requires FindTag(s, false, ignoreCase) == Some(j)
    ensures RawParagraphs(s, ignoreCase) == ParagraphsFrom(s[j + 3..], ignoreCase)
  {
  }

  /** The span up to the first closing tag, then the scan of what follows it. */
  lemma CloseStep(body: string, k: nat, ignoreCase: bool)
    requires FindTag(body, true, ignoreCase) == Some(k)
    ensures ParagraphsFrom(body, ignoreCase) == [body[..k]] + RawParagraphs(body[k + 4..], ignoreCase)
  {
  }

  /** The first match of a scan that finds one: its inner text, and the text the scan resumes on. */
  lemma ScanFirst(s: string, ignoreCase: bool) returns (inner: string, tail: string)
    requires RawParagraphs(s, ignoreCase) != []
    ensures RawParagraphs(s, ignoreCase) == [inner] + RawParagraphs(tail, ignoreCase)
    ensures |tail| < |s| && NoClosingTag(inner, ignoreCase)
  {
    var j := FindTag(s, false, ignoreCase).value;
    OpenStep(s, j, ignoreCase);
    var body := s[j + 3..];
    var k := FindTag(body, true, ignoreCase).value;
    CloseStep(body, k, ignoreCase);
    FindTagLeftmost(body, true, ignoreCase);
    PrefixNoClosing(body, k, ignoreCase);
    inner, tail := body[..k], body[k + 4..];
  }

  /** The lazy match stops at the first `</p>`: no paragraph holds a closing tag. */
  lemma {:induction false} RawParagraphsNoClosing(s: string, ignoreCase: bool, i: nat)
    requires i < |RawParagraphs(s, ignoreCase)|
    ensures NoClosingTag(RawParagraphs(s, ignoreCase)[i], ignoreCase)
    decreases |s|
  {
    var inner, tail := ScanFirst(s, ignoreCase);
    if i > 0 {
      RawParagraphsNoClosing(tail, ignoreCase, i - 1);
      assert ([inner] + RawParagraphs(tail, ignoreCase))[i] == RawParagraphs(tail, ignoreCase)[i - 1];
    }
  }

  /** The text before the first closing tag holds no closing tag. */
  lemma PrefixNoClosing(body: string, k: nat, ignoreCase: bool)
    requires k <= |body| && forall j :: 0 <= j < k ==> !TagAt(body[j..], true, ignoreCase)
    ensures NoClosingTag(body[..k], ignoreCase)
  {
    var inner := body[..k];
    forall i | 0 <= i < |inner|
      ensures !ClosesParagraph(inner[i..], ignoreCase)
    {
      assert !TagAt(body[i..], true, ignoreCase);
      if |inner[i..]| >= 4 {
        assert inner[i..][..4] == body[i..][..4];
      }
    }
  }

  /** Strip every paragraph and drop those left empty. */
  function CleanParagraphs(ps: seq<string>): (r: seq<string>)
    ensures |r| <= |ps|
    ensures forall i :: 0 <= i < |r| ==> r[i] != [] && Trimmed(r[i])
  {
    if ps == [] then []
    else
      var p := Trim(ps[0]);
      var rest := CleanParagraphs(ps[1..]);
      if p != [] then
        CleanCons(p, rest);
        [p] + rest
      else rest
  }

  lemma CleanCons(p: string, rest: seq<string>)
    requires p != [] && Trimmed(p)
    requires forall i :: 0 <= i < |rest| ==> rest[i] != [] && Trimmed(rest[i])
    ensures forall i :: 0 <= i < |[p] + rest| ==> ([p] + rest)[i] != [] && Trimmed(([p] + rest)[i])
  {
  }

  /** `split_paragraphs_into_list`: the stripped, non-blank inner texts of the paragraphs. */
  function SplitParagraphs(s: string, ignoreCase: bool): (r: seq<string>)
    ensures forall i :: 0 <= i < |r| ==> r[i] != [] && Trimmed(r[i])
  {
    CleanParagraphs(RawParagraphs(s, ignoreCase))
  }

  /** `REGEX_PARAGRAPH_SPLIT.search(s)`: some `<p>...</p>` span exists. */
  predicate HasParagraph(s: string, ignoreCase: bool)
  {
    RawParagraphs(s, ignoreCase) != []
  }

  /** The text `<p>p0</p><p>p1</p>...`. */
  function Wrap(ps: seq<string>): string
  {
    if ps == [] then "" else "<p>" + ps[0] + "</p>" + Wrap(ps[1..])
  }

  /** Text without `<` holds no paragraph tag: it has no paragraph span and no closing tag. */
  lemma TagFreeHasNoParagraph(s: string, ignoreCase: bool)
    requires NoTagStart(s)
    ensures !HasParagraph(s, ignoreCase) && NoClosingTag(s, ignoreCase)
  {
    forall j | 0 <= j < |s| ensures !TagAt(s[j..], false, ignoreCase) && !ClosesParagraph(s[j..], ignoreCase) {
      assert s[j..][0] == s[j];
    }
    FindTagLeftmost(s, false, ignoreCase);
    assert FindTag(s, false, ignoreCase) == None;
  }

  /** The leftmost tag is the one at `k` when no tag starts before it. */
  lemma FindTagAt(s: string, k: nat, closing: bool, ignoreCase: bool)
    requires k < |s| && TagAt(s[k..], closing, ignoreCase)
    requires forall j :: 0 <= j < k ==> !TagAt(s[j..], closing, ignoreCase)
    ensures FindTag(s, closing, ignoreCase) == Some(k)
  {
    FindTagLeftmost(s, closing, ignoreCase);
  }

  /** No closing tag starts inside `p` when `p` holds none and is followed by `<`. */
  lemma NoClosingTagBefore(p: string, tail: string, ignoreCase: bool)
    requires NoClosingTag(p, ignoreCase) && tail != [] && tail[0] == '<'
    ensures forall j :: 0 <= j < |p| ==> !TagAt((p + tail)[j..], true, ignoreCase)
  {
    var s := p + tail;
    forall j | 0 <= j < |p|
      ensures !ClosesParagraph(s[j..], ignoreCase)
    {
      if j + 4 <= |p| {
        assert s[j..][..4] == p[j..][..4];
        assert !ClosesParagraph(p[j..], ignoreCase);
      } else {
        assert s[j..][|p| - j] == s[|p|] == '<';
      }
    }
  }

  /** A paragraph without `</p>` inside is found whole, and scanning resumes after it. */
  lemma RawParagraphsCons(p: string, rest: string, ignoreCase: bool)
    requires NoClosingTag(p, ignoreCase)
    ensures RawParagraphs("<p>" + p + "</p>" + rest, ignoreCase) == [p] + RawParagraphs(rest, ignoreCase)
  {
    var s := "<p>" + p + "</p>" + rest;
    var body := p + ("</p>" + rest);
    ConsFindsTags(p, rest, ignoreCase);
    OpenStep(s, 0, ignoreCase);
    CloseStep(body, |p|, ignoreCase);
    assert body[..|p|] == p;
    assert body[|p| + 4..] == rest;
  }

  lemma ConsFindsTags(p: string, rest: string, ignoreCase: bool)
    requires NoClosingTag(p, ignoreCase)
    ensures FindTag("<p>" + p + "</p>" + rest, false, ignoreCase) == Some(0)
    ensures ("<p>" + p + "</p>" + rest)[3..] == p + ("</p>" + rest)
    ensures FindTag(p + ("</p>" + rest), true, ignoreCase) == Some(|p|)
  {
    var s := "<p>" + p + "</p>" + rest;
    FindTagAt(s, 0, false, ignoreCase);
    var body := p + ("</p>" + rest);
    NoClosingTagBefore(p, "</p>" + rest, ignoreCase);
    assert body[|p|..] == "</p>" + rest;
    FindTagAt(body, |p|, true, ignoreCase);
  }

  /** Wrapped paragraphs form a paragraph span. */
  lemma WrapHasParagraph(ps: seq<string>, ignoreCase: bool)
    requires |ps| >= 1 && NoClosingTag(ps[0], ignoreCase)
    ensures HasParagraph(Wrap(ps), ignoreCase)
  {
    RawParagraphsCons(ps[0], Wrap(ps[1..]), ignoreCase);
  }

  /**
    Splitting inverts wrapping: paragraphs that are stripped, non-empty and
    free of `</p>` come back exactly, in order.
  */
  lemma {:induction false} SplitWrap(ps: seq<string>, ignoreCase: bool)
    requires forall i :: 0 <= i < |ps| ==> ps[i] != [] && Trimmed(ps[i]) && NoClosingTag(ps[i], ignoreCase)
    ensures SplitParagraphs(Wrap(ps), ignoreCase) == ps
  {
    if ps == [] {
      assert FindTag("", false, ignoreCase) == None;
    } else {
      var raw := RawParagraphs(Wrap(ps[1..]), ignoreCase);
      assert RawParagraphs(Wrap(ps), ignoreCase) == [ps[0]] + raw by {
        RawParagraphsCons(ps[0], Wrap(ps[1..]), ignoreCase);
      }
      assert CleanParagraphs([ps[0]] + raw) == [ps[0]] + CleanParagraphs(raw) by {
        TrimUnique(ps[0], [], ps[0], []);
        assert ([ps[0]] + raw)[1..] == raw;
      }
      SplitWrap(ps[1..], ignoreCase);
      assert ps == [ps[0]] + ps[1..];
    }
  }

  /** A bold span around tag-free text holds no closing paragraph tag and is already stripped. */
  lemma BoldSpanPlain(x: string, ignoreCase: bool)
    requires NoTagStart(x)
    ensures NoClosingTag("<b>" + x + "</b>", ignoreCase)
    ensures Trim("<b>" + x + "</b>") == "<b>" + x + "</b>"
  {
    var b := "<b>" + x + "</b>";
    forall i | 0 <= i < |b| ensures !ClosesParagraph(b[i..], ignoreCase) {
      if i == 0 {
        assert b[i..][1] == 'b';
      } else if i < 3 {
        assert b[i..][0] == b[i] != '<';
      } else if i < 3 + |x| {
        assert b[i..][0] == x[i - 3];
      } else if i == 3 + |x| {
        assert b[i..][2] == 'b';
      } else {
        assert b[i..][0] == b[i] != '<';
      }
    }
    TrimUnique(b, [], b, []);
  }

  /** Cleaning distributes over concatenation. */
  lemma {:induction false} CleanParagraphsAppend(a: seq<string>, b: seq<string>)
    ensures CleanParagraphs(a + b) == CleanParagraphs(a) + CleanParagraphs(b)
  {
    if a != [] {
      assert (a + b)[0] == a[0];
      assert (a + b)[1..] == a[1..] + b;
      CleanParagraphsAppend(a[1..], b);
      var p, x, y := Trim(a[0]), CleanParagraphs(a[1..]), CleanParagraphs(b);
      assert [p] + (x + y) == ([p] + x) + y;
    } else {
      assert a + b == b;
    }
  }

  /** A cleaned paragraph is exactly a non-blank stripped input paragraph. */
  lemma {:induction false} CleanParagraphsMembers(ps: seq<string>, x: string)
    ensures x in CleanParagraphs(ps) <==> x != [] && exists j :: 0 <= j < |ps| && Trim(ps[j]) == x
  {
    if ps != [] {
      CleanParagraphsMembers(ps[1..], x);
      if x != [] && Trim(ps[0]) != x && exists j :: 0 <= j < |ps| && Trim(ps[j]) == x {
        var j :| 0 <= j < |ps| && Trim(ps[j]) == x;
        assert ps[1..][j - 1] == ps[j];
      }
      if exists j :: 0 <= j < |ps| - 1 && Trim(ps[1..][j]) == x {
        var j :| 0 <= j < |ps| - 1 && Trim(ps[1..][j]) == x;
        assert ps[j + 1] == ps[1..][j];
      }
    }
  }

  /**
    One paragraph span at the head of the text: its inner text is stripped
    and kept when something is left, dropped when it is blank, and the
    scan goes on after the span.
  */
  lemma SplitParagraphsCons(p: string, rest: string, ignoreCase: bool)
    requires NoClosingTag(p, ignoreCase)
    ensures SplitParagraphs("<p>" + p + "</p>" + rest, ignoreCase)
            == (if Trim(p) == [] then [] else [Trim(p)]) + SplitParagraphs(rest, ignoreCase)
  {
    var raw := RawParagraphs(rest, ignoreCase);
    RawParagraphsCons(p, rest, ignoreCase);
    assert ([p] + raw)[0] == p && ([p] + raw)[1..] == raw;
  }

  /**
    Splitting wrapped pieces without `</p>` strips every piece and drops
    the blank ones, keeping the order.
  */
  lemma {:induction false} SplitWrapped(ps: seq<string>, ignoreCase: bool)
    requires forall i :: 0 <= i < |ps| ==> NoClosingTag(ps[i], ignoreCase)
    ensures SplitParagraphs(Wrap(ps), ignoreCase) == CleanParagraphs(ps)
  {
    if ps == [] {
      assert FindTag("", false, ignoreCase) == None;
    } else {
      SplitParagraphsCons(ps[0], Wrap(ps[1..]), ignoreCase);
      SplitWrapped(ps[1..], ignoreCase);
    }
  }

  /**
    The lazy match pairs a `<p>` with the first `</p>` after it, so in a
    nested `<p><p>A</p></p>` the inner opening tag is part of the text and
    the outer closing tag is left over.
  */
  lemma NestedParagraphs()
    ensures SplitParagraphs("<p><p>A</p></p>", true) == ["<p>A"]
  {
    NestedInnerShape();
    NestedSplit("<p>A", "</p>");
    LoneClosingTagSplitsToNothing();
  }

  /** The outer span of the nested text holds the inner opening tag and the text after it. */
  lemma NestedSplit(inner: string, rest: string)
    requires NoClosingTag(inner, true) && inner != [] && Trimmed(inner)
    ensures SplitParagraphs("<p>" + inner + "</p>" + rest, true) == [inner] + SplitParagraphs(rest, true)
  {
    SplitParagraphsCons(inner, rest, true);
    TrimUnique(inner, [], inner, []);
  }

  lemma NestedInnerShape()
    ensures NoClosingTag("<p>A", true) && Trimmed("<p>A")
    ensures "<p>" + "<p>A" + "</p>" + "</p>" == "<p><p>A</p></p>"
  {
    var inner := "<p>A";
    forall i | 0 <= i < |inner| ensures !ClosesParagraph(inner[i..], true) {
      assert i == 0 ==> inner[i..][1] == 'p';
    }
  }

  /** A closing tag on its own holds no paragraph span. */
  lemma LoneClosingTagSplitsToNothing()
    ensures SplitParagraphs("</p>", true) == []
  {
    var s := "</p>";
    forall j | 0 <= j < |s| ensures !TagAt(s[j..], false, true) {
      assert s[j..][0] == s[j];
      assert j == 0 ==> s[j..][1] == '/';
    }
    FindTagLeftmost(s, false, true);
  }

  /** Stripping text without `<` leaves text without `<`. */
  lemma TrimKeepsTagFree(s: string)
    requires NoTagStart(s)
    ensures NoTagStart(Trim(s))
  {
    TrimStartKeepsTagFree(s);
  }

  lemma {:induction false} TrimStartKeepsTagFree(s: string)
    requires NoTagStart(s)
    ensures NoTagStart(TrimStart(s))
    decreases |s|
  {
    if s != [] && IsSpace(s[0]) {
      NoTagStartTail(s);
      TrimStartKeepsTagFree(s[1..]);
    }
  }

  // ---------------------------------------------------------------------
  // \{(.*?)}  (no DOTALL: the name cannot span a line break)

  /** The position of the first `}` in `s`, provided no line break comes before it. */
  function FindBraceClose(s: string): (r: Option<nat>)
    ensures r.Some? ==> r.value < |s| && s[r.value] == '}'
                        && forall j :: 0 <= j < r.value ==> s[j] != '}' && s[j] != '\n'
    decreases |s|
  {
    if s == [] || s[0] == '\n' then None
    else if s[0] == '}' then Some(0)
    else
      match FindBraceClose(s[1..])
      case None => None
      case Some(k) => Some(k + 1)
  }

  /** `REGEX_PLACEHOLDER.findall(s)`: the name inside every `{name}`, left to right, duplicates kept. */
  function PlaceholderNames(s: string): (r: seq<string>)
    ensures forall i :: 0 <= i < |r| ==> '}' !in r[i] && '\n' !in r[i]
    decreases |s|
  {
    if s == [] then []
    else if s[0] == '{' then
      match FindBraceClose(s[1..])
      case Some(k) =>
        var name := s[1..1 + k];
        assert forall j :: 0 <= j < |name| ==> name[j] == s[1..][j];
        [name] + PlaceholderNames(s[k + 2..])
      case None => PlaceholderNames(s[1..])
    else PlaceholderNames(s[1..])
  }

  /** Text without `{` contributes no names. */
  lemma {:induction false} PlaceholderNamesSkip(u: string, s: string)
    requires '{' !in u
    ensures PlaceholderNames(u + s) == PlaceholderNames(s)
  {
    if u == [] {
      assert u + s == s;
    } else {
      assert (u + s)[0] == u[0];
      assert (u + s)[1..] == u[1..] + s;
      PlaceholderNamesSkip(u[1..], s);
    }
  }

  lemma {:induction false} FindBraceCloseAfter(n: string, rest: string)
    requires '}' !in n && '\n' !in n
    ensures FindBraceClose(n + "}" + rest) == Some(|n|)
  {
    if n != [] {
      assert (n + "}" + rest)[1..] == n[1..] + "}" + rest;
      FindBraceCloseAfter(n[1..], rest);
    }
  }

  /** A `{name}` token yields its name, and scanning resumes after the `}`. */
  lemma PlaceholderNamesCons(n: string, rest: string)
    requires '}' !in n && '\n' !in n
    ensures PlaceholderNames("{" + n + "}" + rest) == [n] + PlaceholderNames(rest)
  {
    var s := "{" + n + "}" + rest;
    TokenShape(n, rest);
    FindBraceCloseAfter(n, rest);
    PlaceholderNamesStep(s, |n|);
  }

  lemma TokenShape(n: string, rest: string)
    ensures var s := "{" + n + "}" + rest;
      s != [] && s[0] == '{' && s[1..] == n + "}" + rest && s[1..1 + |n|] == n && s[|n| + 2..] == rest
  {
  }

  lemma PlaceholderNamesStep(s: string, k: nat)
    requires s != [] && s[0] == '{' && FindBraceClose(s[1..]) == Some(k)
    ensures PlaceholderNames(s) == [s[1..1 + k]] + PlaceholderNames(s[k + 2..])
  {
  }

  /** A `{name}` token and text without `{` after it yield the name, then the scan goes on. */
  lemma PlaceholderNamesThenText(n: string, sep: string, rest: string)
    requires '}' !in n && '\n' !in n && '{' !in sep
    ensures PlaceholderNames("{" + n + "}" + (sep + rest)) == [n] + PlaceholderNames(rest)
  {
    PlaceholderNamesCons(n, sep + rest);
    PlaceholderNamesSkip(sep, rest);
  }

  /** Duplicates are kept, in order of appearance. */
  lemma PlaceholderNamesKeepDuplicates(a: string, b: string, sep: string)
    requires '}' !in a && '\n' !in a && '}' !in b && '\n' !in b && '{' !in sep
    ensures PlaceholderNames("{" + a + "}" + sep + "{" + b + "}" + sep + "{" + a + "}") == [a, b, a]
  {
    var third := "{" + a + "}";
    var second := "{" + b + "}" + (sep + third);
    Regroup(a, b, sep);
    PlaceholderNamesThenText(a, sep, second);
    PlaceholderNamesThenText(b, sep, third);
    PlaceholderNamesCons(a, "");
    assert third + "" == third;
  }

  lemma Regroup(a: string, b: string, sep: string)
    ensures "{" + a + "}" + sep + "{" + b + "}" + sep + "{" + a + "}"
         == "{" + a + "}" + (sep + ("{" + b + "}" + (sep + ("{" + a + "}"))))
  {
  }
}
