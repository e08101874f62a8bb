/** The per-window text layout of the current revision (src/window/display/mod.rs):
    truncation on character boundaries and removal of angle brackets. A panic of the program
    is a `None` result. */
module Display {
  import opened Wrappers
  import opened Text
  import opened Window
  import opened Layout

  /** The text of one window before sanitizing, for a body and a width: the body cut to
      `width - 3` characters plus "..." when its visible part is longer than `width`,
      otherwise the visible part centred. A width below 3 in the first case underflows and
      panics; the `unwrap` on the character index never does. */
  function LaidOut(body: string, width: nat): (r: Option<string>)
    ensures r.Some? <==> (|Visible(body)| <= width || width >= 3)
    ensures (|Visible(body)| > width && width >= 3) ==> r == Some(body[..width - 3] + "...")
    ensures |Visible(body)| <= width ==> r == Some(Padded(Visible(body), width))
  {
    var visible := Visible(body);
    VisibleByteLen(body);
    if ByteLen(visible) > width then
      if width < 3 then None
      else
        match CharIndexNth(body, width - 3)
        case None => None
        case Some(lastCharIndex) =>
          ByteLenPrefixMonotone(body, width - 3, |body|);
          assert body[..|body|] == body;
          BytePrefixAt(body, width - 3);
          match Truncate(body, lastCharIndex)
          case None => None
          case Some(text) => Some(text + "...")
    else Some(Padded(visible, width))
  }

  /** Both branches fit the width: exactly `width` characters when truncated, `width` or
      `width - 1` when padded, and no more than `width` once angle brackets are removed. */
  lemma LaidOutFits(body: string, width: nat)
    requires LaidOut(body, width).Some?
    ensures var text := LaidOut(body, width).value;
      && (|Visible(body)| > width ==> |text| == width)
      && (|Visible(body)| <= width ==> |text| == width || |text| == width - 1)
      && |Sanitize(text)| <= width
  {
  }

  /** A body whose visible part is exactly the width is shown whole, without padding; one
      character more and it is cut to `width - 3` characters and "...". */
  lemma TruncationBoundary(body: string, width: nat)
    ensures |Visible(body)| == width ==> LaidOut(body, width) == Some(Visible(body))
    ensures (|Visible(body)| == width + 1 && width >= 3) ==>
      LaidOut(body, width) == Some(body[..width - 3] + "...")
  {
    if |Visible(body)| == width {
      var v := Visible(body);
      assert Spaces(0) == [];
      assert Padded(v, width) == v;
    }
  }

  /** A body without angle brackets is laid out without any: cutting and centring only
      drop characters or add dots and spaces. */
  lemma LaidOutKeepsClean(body: string, width: nat)
    requires NoAngle(body) && LaidOut(body, width).Some?
    ensures NoAngle(LaidOut(body, width).value)
  {
    var text := LaidOut(body, width).value;
    if |Visible(body)| <= width {
      NoAngleCounts(body);
      VisibleCount(body, '<');
      VisibleCount(body, '>');
      PaddedCounts(Visible(body), width, '<');
      PaddedCounts(Visible(body), width, '>');
      NoAngleCounts(text);
    } else {
      assert text == body[..width - 3] + "...";
      assert forall i :: 0 <= i < width - 3 ==> text[i] == body[i];
    }
  }

  /** `display_formatted_text`: the laid-out text with every `<` and `>` removed, in bold
      when the window is active. */
  function FormattedText(w: WindowData, width: nat): (r: Option<string>)
    ensures r.Some? <==> (|Visible(Body(w.title, w.appName))| <= width || width >= 3)
    ensures (r.Some? && w.active) ==>
      && 7 <= |r.value| <= width + 7
      && r.value == "<b>" + r.value[3..|r.value| - 4] + "</b>"
      && NoAngle(r.value[3..|r.value| - 4])
    ensures (r.Some? && !w.active) ==> NoAngle(r.value) && |r.value| <= width
    ensures r.Some? ==>
      var clean := Sanitize(LaidOut(Body(w.title, w.appName), width).value);
      r.value == if w.active then "<b>" + clean + "</b>" else clean
  {
    var body := Body(w.title, w.appName);
    match LaidOut(body, width)
    case None => None
    case Some(text) =>
      LaidOutFits(body, width);
      var clean := Sanitize(text);
      if w.active then
        var bold := "<b>" + clean + "</b>";
        assert bold[3..|bold| - 4] == clean;
        Some(bold)
      else
        Some(clean)
  }

  /** The formatted text holds exactly one `<` and one `>` of each of `<b>` and `</b>` when
      the window is active, and none at all otherwise. */
  lemma FormattedTextMarkup(w: WindowData, width: nat)
    requires FormattedText(w, width).Some?
    ensures var r := FormattedText(w, width).value;
      && multiset(r)['<'] == (if w.active then 2 else 0)
      && multiset(r)['>'] == (if w.active then 2 else 0)
  {
    var r := FormattedText(w, width).value;
    if w.active {
      var plain := r[3..|r| - 4];
      assert '<' !in plain && '>' !in plain;
      assert r == "<b>" + plain + "</b>";
      assert multiset("<b>")['<'] == 1 && multiset("<b>")['>'] == 1;
      assert multiset("</b>")['<'] == 1 && multiset("</b>")['>'] == 1;
    } else {
      assert '<' !in r && '>' !in r;
    }
  }

  /** `as_display_str`: the formatted text in the styled span, on the colour that matches
      the window's state. The only markup inside the span is the bold wrapper of the active
      window: a title cannot add any. */
  function AsDisplayStr(w: WindowData, config: Config, width: nat): (r: Option<string>)
    ensures r.Some? <==> (|Visible(Body(w.title, w.appName))| <= width || width >= 3)
    ensures r.Some? ==>
      r.value == Span(config.lineHeight,
                      if w.active then config.activeBackgroundColor else config.backgroundColor,
                      FormattedText(w, width).value)
    ensures r.Some? ==>
      exists plain ::
        && NoAngle(plain) && |plain| <= width
        && r.value == Span(config.lineHeight,
                           if w.active then config.activeBackgroundColor else config.backgroundColor,
                           if w.active then "<b>" + plain + "</b>" else plain)
  {
    match FormattedText(w, width)
    case None => None
    case Some(formatted) =>
      Some(Span(config.lineHeight, BackgroundColor(w, config), formatted))
  }
}
