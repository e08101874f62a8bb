/** The per-window text layout of the earlier revision (src/window/display.rs): the long
    text is cut at a BYTE offset, and nothing is removed from the text before it goes into
    the markup. A panic of the program is a `None` result. */
module DisplayLegacy {
  import opened Wrappers
  import opened Text
  import opened Window
  import opened Layout
  import Display

  /** The text of one window for a body and a width: the body cut to `width - 3` BYTES plus
      "..." when its visible part is longer than `width`, otherwise the visible part centred.
      A width below 3 in the first case underflows and panics, and so does a cut that falls
      inside the encoding of a character. */
  function LaidOut(body: string, width: nat): (r: Option<string>)
    ensures r.Some? <==>
      (|Visible(body)| <= width || (width >= 3 && IsCharBoundary(body, width - 3)))
    ensures (|Visible(body)| > width && r.Some?) ==>
      && |r.value| >= 3
      && r.value[..|r.value| - 3] <= body
      && ByteLen(r.value[..|r.value| - 3]) == width - 3
      && r.value[|r.value| - 3..] == "..."
    ensures |Visible(body)| <= width ==> r == Some(Padded(Visible(body), width))
  {
    var visible := Visible(body);
    VisibleByteLen(body);
    if ByteLen(visible) > width then
      if width < 3 then None
      else
        TruncateSucceeds(body, width - 3);
        match Truncate(body, width - 3)
        case None => None
        case Some(text) =>
          var cut := text + "...";
          assert cut[..|cut| - 3] == text;
          Some(cut)
    else Some(Padded(visible, width))
  }

  /** `display_formatted_text` of this revision: the laid-out text, in bold when the window
      is active, with its angle brackets left in. */
  function FormattedText(w: WindowData, width: nat): (r: Option<string>)
    ensures r.Some? <==> LaidOut(Body(w.title, w.appName), width).Some?
    ensures (r.Some? && w.active) ==>
      && |r.value| >= 7
      && r.value == "<b>" + LaidOut(Body(w.title, w.appName), width).value + "</b>"
    ensures (r.Some? && !w.active) ==> r == LaidOut(Body(w.title, w.appName), width)
  {
    match LaidOut(Body(w.title, w.appName), width)
    case None => None
    case Some(text) => Some(if w.active then "<b>" + text + "</b>" else text)
  }

  /** `as_display_str` of this revision: the same span and colour as the current one. */
  function AsDisplayStr(w: WindowData, config: Config, width: nat): (r: Option<string>)
    ensures r.Some? <==> FormattedText(w, width).Some?
    ensures r.Some? ==>
      r.value == Span(config.lineHeight,
                      if w.active then config.activeBackgroundColor else config.backgroundColor,
                      FormattedText(w, width).value)
  {
    match FormattedText(w, width)
    case None => None
    case Some(formatted) => Some(Span(config.lineHeight, BackgroundColor(w, config), formatted))
  }

  /** Centring keeps every angle bracket of the body: the padding is spaces and the visible
      part keeps all printable characters. */
  lemma PaddedKeepsAngles(body: string, width: nat)
    requires |Visible(body)| <= width
    ensures LaidOut(body, width).Some?
    ensures var text := LaidOut(body, width).value;
      && multiset(text)['<'] == multiset(body)['<']
      && multiset(text)['>'] == multiset(body)['>']
  {
    PaddedCounts(Visible(body), width, '<');
    PaddedCounts(Visible(body), width, '>');
    VisibleCount(body, '<');
    VisibleCount(body, '>');
  }

  /** Every angle bracket of a body that fits reaches the markup: the formatted text holds
      as many `<` and `>` as the body, plus the two of each of the bold wrapper. */
  lemma AnglesPassThrough(w: WindowData, width: nat)
    requires |Visible(Body(w.title, w.appName))| <= width
    ensures FormattedText(w, width).Some?
    ensures var body := Body(w.title, w.appName);
      var r := FormattedText(w, width).value;
      && multiset(r)['<'] == multiset(body)['<'] + (if w.active then 2 else 0)
      && multiset(r)['>'] == multiset(body)['>'] + (if w.active then 2 else 0)
  {
    var body := Body(w.title, w.appName);
    PaddedKeepsAngles(body, width);
    if w.active {
      var text := LaidOut(body, width).value;
      assert multiset("<b>")['<'] == 1 && multiset("<b>")['>'] == 1;
      assert multiset("</b>")['<'] == 1 && multiset("</b>")['>'] == 1;
      assert multiset("<b>" + text + "</b>") == multiset("<b>") + multiset(text) + multiset("</b>");
    }
  }

  /** Both revisions lay out an ASCII body alike: on one-byte characters a cut after
      `width - 3` bytes is a cut after `width - 3` characters. */
  lemma LaidOutAgreesOnAscii(body: string, width: nat)
    requires IsAscii(body)
    ensures LaidOut(body, width) == Display.LaidOut(body, width)
  {
    if |Visible(body)| > width && width >= 3 {
      var k := width - 3;
      assert IsAscii(body[..k]);
      ByteLenAscii(body[..k]);
      ByteLenAscii(body);
      BytePrefixAt(body, k);
      assert Truncate(body, k) == Some(body[..k]);
    }
  }

  /** On an ASCII body without angle brackets the two revisions produce the same text:
      sanitizing has nothing to remove and the byte cut is a character cut. */
  lemma FormattedTextAgreesWhenClean(w: WindowData, width: nat)
    requires IsAscii(Body(w.title, w.appName)) && NoAngle(Body(w.title, w.appName))
    ensures FormattedText(w, width) == Display.FormattedText(w, width)
  {
    var body := Body(w.title, w.appName);
    LaidOutAgreesOnAscii(body, width);
    if Display.LaidOut(body, width).Some? {
      Display.LaidOutKeepsClean(body, width);
      SanitizeClean(Display.LaidOut(body, width).value);
    }
  }

  /** The cut of this revision panics whenever byte `width - 3` falls inside a character;
      the current revision cuts after `width - 3` characters and never does. */
  lemma ByteCutPanics(body: string, width: nat)
    requires |Visible(body)| > width >= 3 && !IsCharBoundary(body, width - 3)
    ensures LaidOut(body, width).None?
    ensures Display.LaidOut(body, width).Some?
  {
  }

  /** An application name of one character wider than a byte, such as "é": at width 4 the
      cut falls on byte 1, inside that character. */
  lemma ByteCutPanicsExample(c: char)
    requires c as int >= 0x80
    ensures FormattedText(WindowData("xyz", [c], false, 0), 4).None?
    ensures Display.FormattedText(WindowData("xyz", [c], false, 0), 4) == Some([c] + "...")
  {
    var body := [c] + ": xyz";
    assert Body("xyz", [c]) == body;
    WideBodyVisible(c);
    assert BytePrefix(body, 1).None?;
    assert body[..1] == [c];
    DotsClean(c);
  }

  lemma WideBodyVisible(c: char)
    requires c as int >= 0x80
    ensures Visible([c] + ": xyz") == ": xyz"
  {
    VisibleConcat([c], ": xyz");
    assert AllPrintable(": xyz");
    VisibleClean(": xyz");
  }

  lemma DotsClean(c: char)
    requires !IsAngle(c)
    ensures Sanitize([c] + "...") == [c] + "..."
  {
    var cut := [c] + "...";
    assert NoAngle(cut) by {
      assert cut[0] == c;
    }
    SanitizeClean(cut);
  }

  /** A title `<c>` holding markup reaches the span as markup in this revision and is
      stripped to `c` in the current one. */
  lemma MarkupLeakExample(c: char)
    requires IsPrintable(c) && !IsAngle(c)
    ensures FormattedText(WindowData("<" + [c] + ">", "a", false, 0), 10) == Some("  a: <" + [c] + ">  ")
    ensures Display.FormattedText(WindowData("<" + [c] + ">", "a", false, 0), 10) == Some("  a: " + [c] + "  ")
  {
    var body := "a: <" + [c] + ">";
    assert Body("<" + [c] + ">", "a") == body;
    assert Padded(Visible(body), 10) == "  a: <" + [c] + ">  " by {
      MarkupPadded(c);
    }
    assert Sanitize("  a: <" + [c] + ">  ") == "  a: " + [c] + "  " by {
      MarkupSanitized(c);
    }
  }

  lemma MarkupPadded(c: char)
    requires IsPrintable(c)
    ensures Padded(Visible("a: <" + [c] + ">"), 10) == "  a: <" + [c] + ">  "
  {
    var body := "a: <" + [c] + ">";
    assert "  " + body + "  " == "  a: <" + [c] + ">  ";
    assert Visible(body) == body by {
      assert AllPrintable(body);
      VisibleClean(body);
    }
    assert Padded(body, 10) == "  " + body + "  " by {
      CentredInTen(body);
    }
  }

  lemma MarkupSanitized(c: char)
    requires !IsAngle(c)
    ensures Sanitize("  a: <" + [c] + ">  ") == "  a: " + [c] + "  "
  {
    assert "  a: <" + [c] + ">  " == "  a: " + "<" + [c] + ">" + "  ";
    assert NoAngle("  a: ") && NoAngle("  ");
    StripsBrackets("  a: ", c, "  ");
  }

  lemma CentredInTen(body: string)
    requires |body| == 6
    ensures Padded(body, 10) == "  " + body + "  "
  {
    var spaces := Spaces(2);
    assert spaces == "  ";
  }

  /** Sanitizing deletes one pair of brackets around a character. */
  lemma StripsBrackets(p: string, c: char, q: string)
    requires NoAngle(p) && !IsAngle(c) && NoAngle(q)
    ensures Sanitize(p + "<" + [c] + ">" + q) == p + [c] + q
  {
    var open, close := "<", ">";
    assert Sanitize(open) == [] by {
      assert open[1..] == [];
    }
    assert Sanitize(close) == [] by {
      assert close[1..] == [];
    }
    var a := p + open;
    assert Sanitize(a) == p by {
      SanitizeConcat(p, open);
      SanitizeClean(p);
    }
    var b := a + [c];
    assert Sanitize(b) == p + [c] by {
      SanitizeConcat(a, [c]);
      SanitizeClean([c]);
    }
    var d := b + close;
    assert Sanitize(d) == p + [c] by {
      SanitizeConcat(b, close);
    }
    assert Sanitize(d + q) == p + [c] + q by {
      SanitizeConcat(d, q);
      SanitizeClean(q);
    }
  }
}
