/**
  The older text helpers of the service: `split_paragraphs` and
  `clean_text`. Their `replace_b_with_strong` is `Markup.Embolden`, which
  the converter's sanitiser also uses.

  They share the tag patterns of the sanitiser, with two differences:
  their paragraph and line-break patterns are case-sensitive, and
  `clean_text` deletes those tags first and converts the bold tags after.
*/
module TextUtils {
  import opened Wrappers
  import opened Markup

  /**
    `clean_text`: lower-case `<br>`/`</br>` are deleted, then lower-case
    `<p>`/`</p>`, then the bold tags become strong tags, and the result is
    stripped.
  */
  function CleanText(s: string): (r: string)
    ensures Trimmed(r)
  {
    Trim(Embolden(Substitute(Substitute(s, LineBreak(false), ""), Paragraph(false), "")))
  }

  // ---------------------------------------------------------------------
  // split_paragraphs

  /** `split_paragraphs` matches only lower-case paragraph tags: a `<P>...</P>` span yields nothing. */
  lemma UpperParagraphNotSplit(x: string)
    requires NoTagStart(x)
    ensures SplitParagraphs("<P>" + x + "</P>", false) == []
  {
    var s := "<P>" + x + "</P>";
    forall k | 0 <= k < |s| ensures !TagAt(s[k..], false, false) {
      if k == 0 {
        assert s[k..][1] == s[1] == 'P';
      } else if k < 3 + |x| {
        assert s[k..][0] == s[k];
        if k >= 3 {
          assert s[k] == x[k - 3];
        }
      } else {
        assert s[k..][0] == s[k];
        if k == 3 + |x| {
          assert s[k..][1] == s[k + 1] == '/';
        }
      }
    }
    FindTagLeftmost(s, false, false);
    assert FindTag(s, false, false) == None;
  }

  // ---------------------------------------------------------------------
  // clean_text

  /** Text without markup is only stripped. */
  lemma CleanTextPlain(s: string)
    requires NoTagStart(s)
    ensures CleanText(s) == Trim(s)
  {
    SubstituteNoTag(s, LineBreak(false), "");
    SubstituteNoTag(s, Paragraph(false), "");
    EmboldenPlain(s);
  }

  /**
    Upper-case `<P>` survives `clean_text`, whose paragraph pattern is
    case-sensitive, while the sanitiser of the converter deletes it.
  */
  lemma UpperParagraphSurvives(v: string)
    requires NoTagStart(v)
    ensures CleanText("<P>" + v) == Trim("<P>" + v)
    ensures Sanitise("<P>" + v) == Trim(v)
  {
    var y := "<P>" + v;
    UpperParagraphUnmatched(v);
    KeptWhenUnmatched(y, LineBreak(false), "");
    KeptWhenUnmatched(y, Paragraph(false), "");
    KeptWhenUnmatched(y, BoldOpen, "<strong>");
    KeptWhenUnmatched(y, BoldClose, "</strong>");
    KeptWhenUnmatched(y, LineBreak(true), "");
    ParagraphTagDeleted("<P>", v, true);
    SubstituteNoTag(v, Paragraph(true), "");
  }

  /** `<P>` starts no match of the tags other than the case-insensitive paragraph tag. */
  lemma UpperParagraphUnmatched(v: string)
    ensures var y := "<P>" + v;
      && MatchTag(LineBreak(false), y) == 0 && MatchTag(LineBreak(true), y) == 0
      && MatchTag(Paragraph(false), y) == 0
      && MatchTag(BoldOpen, y) == 0 && MatchTag(BoldClose, y) == 0
    ensures NoTagStart(v) ==> NoTagStart(("<P>" + v)[1..])
  {
    var y := "<P>" + v;
    assert y[1] == 'P' && y[2] == '>';
    assert SkipSpaces(y, 1) == 1;
    if NoTagStart(v) {
      assert forall i :: 2 <= i < |y[1..]| ==> y[1..][i] == v[i - 2];
    }
  }

  /**
    A paragraph, a bold span in it, a line break and a second paragraph:
    the paragraph and line-break tags go, the bold tags become strong
    tags, and the paragraphs run together.
  */
  lemma CleanTextJoinsParagraphs(a: string, b: string, c: string)
    requires NoTagStart(a) && NoTagStart(b) && NoTagStart(c)
    ensures CleanText("<p>" + a + "<b>" + b + "</b></p><br><p>" + c + "</p>")
         == Trim(a + "<strong>" + b + "</strong>" + c)
  {
    JoinedShape(a, b, c);
    LineBreakPass(a, b, c);
    ParagraphPass(a, b, c);
    EmboldenInside(a, b, c);
  }

  lemma JoinedShape(a: string, b: string, c: string)
    ensures "<p>" + a + "<b>" + b + "</b></p><br><p>" + c + "</p>"
         == "<p>" + (a + ("<b>" + (b + ("</b>" + ("</p>" + ("<br>" + ("<p>" + (c + "</p>"))))))))
  {
  }

  lemma LineBreakPass(a: string, b: string, c: string)
    requires NoTagStart(a) && NoTagStart(b) && NoTagStart(c)
    ensures Substitute("<p>" + (a + ("<b>" + (b + ("</b>" + ("</p>" + ("<br>" + ("<p>" + (c + "</p>")))))))), LineBreak(false), "")
         == "<p>" + (a + ("<b>" + (b + ("</b>" + ("</p>" + ("<p>" + (c + "</p>")))))))
  {
    LineBreakHead(a, b, "</b>" + ("</p>" + ("<br>" + ("<p>" + (c + "</p>")))));
    LineBreakTail(c);
  }

  /** The line-break pass keeps `<p>a<b>b` and goes on with what follows. */
  lemma LineBreakHead(a: string, b: string, w: string)
    requires NoTagStart(a) && NoTagStart(b)
    ensures Substitute("<p>" + (a + ("<b>" + (b + w))), LineBreak(false), "")
         == "<p>" + (a + ("<b>" + (b + Substitute(w, LineBreak(false), ""))))
  {
    var t := LineBreak(false);
    KeptPiece("<p>", a + ("<b>" + (b + w)), t, "");
    SubstitutePlainPrefix(a, "<b>" + (b + w), t, "");
    KeptPiece("<b>", b + w, t, "");
    SubstitutePlainPrefix(b, w, t, "");
  }

  /** The line-break pass deletes the `<br>` of `</b></p><br><p>c</p>` only. */
  lemma LineBreakTail(c: string)
    requires NoTagStart(c)
    ensures Substitute("</b>" + ("</p>" + ("<br>" + ("<p>" + (c + "</p>")))), LineBreak(false), "")
         == "</b>" + ("</p>" + ("<p>" + (c + "</p>")))
  {
    var t := LineBreak(false);
    var v7 := "<p>" + (c + "</p>");
    KeptPiece("</b>", "</p>" + ("<br>" + v7), t, "");
    KeptPiece("</p>", "<br>" + v7, t, "");
    LineBreakTagDeleted("<br>", v7, false);
    KeptPiece("<p>", c + "</p>", t, "");
    SubstitutePlainPrefix(c, "</p>", t, "");
    KeptWhenUnmatched("</p>", t, "");
  }

  lemma ParagraphPass(a: string, b: string, c: string)
    requires NoTagStart(a) && NoTagStart(b) && NoTagStart(c)
    ensures Substitute("<p>" + (a + ("<b>" + (b + ("</b>" + ("</p>" + ("<p>" + (c + "</p>"))))))), Paragraph(false), "")
         == a + "<b>" + b + "</b>" + c
  {
    ParagraphHead(a, b, "</b>" + ("</p>" + ("<p>" + (c + "</p>"))));
    ParagraphPassTail(c);
    ParagraphShape(a, b, c);
  }

  /** The paragraph pass deletes the `<p>` of `<p>a<b>b` and goes on with what follows. */
  lemma ParagraphHead(a: string, b: string, w: string)
    requires NoTagStart(a) && NoTagStart(b)
    ensures Substitute("<p>" + (a + ("<b>" + (b + w))), Paragraph(false), "")
         == a + ("<b>" + (b + Substitute(w, Paragraph(false), "")))
  {
    var t := Paragraph(false);
    ParagraphTagDeleted("<p>", a + ("<b>" + (b + w)), false);
    SubstitutePlainPrefix(a, "<b>" + (b + w), t, "");
    KeptPiece("<b>", b + w, t, "");
    SubstitutePlainPrefix(b, w, t, "");
  }

  /** The paragraph pass turns `</b></p><p>c</p>` into `</b>c`. */
  lemma ParagraphPassTail(c: string)
    requires NoTagStart(c)
    ensures Substitute("</b>" + ("</p>" + ("<p>" + (c + "</p>"))), Paragraph(false), "") == "</b>" + (c + [])
  {
    var t := Paragraph(false);
    var v5 := "<p>" + (c + "</p>");
    KeptPiece("</b>", "</p>" + v5, t, "");
    ParagraphTagDeleted("</p>", v5, false);
    ParagraphTagDeleted("<p>", c + "</p>", false);
    SubstitutePlainPrefix(c, "</p>", t, "");
    assert "</p>" + [] == "</p>";
    ParagraphTagDeleted("</p>", [], false);
  }

  lemma ParagraphShape(a: string, b: string, c: string)
    ensures a + ("<b>" + (b + ("</b>" + (c + [])))) == a + "<b>" + b + "</b>" + c
  {
  }

}
