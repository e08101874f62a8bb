/** What the two revisions of the per-window layout (src/window/display/mod.rs and the
    earlier src/window/display.rs) have in common: the settings they read, the body text,
    the centring padding, the background colour and the styled span around the text. */
module Layout {
  import opened Text
  import opened Window

  /** The settings the layout reads. `lineHeight` is the text the program prints for its
      floating-point line height; the width of one window is passed separately. */
  datatype Config = Config(
    lineHeight: string,
    backgroundColor: string,
    activeBackgroundColor: string)

  /** The title suffix that repeats the application name. */
  function AppSuffix(appName: string): (r: string)
    ensures |r| == |appName| + 3
  {
    " - " + appName
  }

  /** `"{app_name}: {title}"` with every `" - {app_name}"` deleted from the title. */
  function Body(title: string, appName: string): (r: string)
    ensures |appName| + 2 <= |r| <= |appName| + 2 + |title|
    ensures r[..|appName| + 2] == appName + ": "
  {
    appName + ": " + RemoveAll(title, AppSuffix(appName))
  }

  /** A title without the suffix is shown as it is. */
  lemma BodyKeepsPlainTitle(title: string, appName: string)
    requires forall i: nat :: !OccursAt(title, AppSuffix(appName), i)
    ensures Body(title, appName) == appName + ": " + title
  {
    RemoveAllNoOccurrence(title, AppSuffix(appName));
  }

  /** The suffix is deleted wherever it first occurs, not only at the end of the title, and
      the rest of the title is treated the same way. */
  lemma BodyStripsSuffix(x: string, appName: string, y: string)
    requires forall i: nat :: i < |x| ==> !OccursAt(x + AppSuffix(appName) + y, AppSuffix(appName), i)
    ensures Body(x + AppSuffix(appName) + y, appName)
         == appName + ": " + x + RemoveAll(y, AppSuffix(appName))
  {
    RemoveAllLeftmost(x, AppSuffix(appName), y);
  }

  /** `format!("{}{}{}", padding, visible, padding)` with `padding` the floor of half the
      free width in spaces: the text is centred, and an odd leftover column is dropped. */
  function Padded(visible: string, width: nat): (r: string)
    requires |visible| <= width
    ensures var pad := (width - |visible|) / 2;
      && |r| == 2 * pad + |visible|
      && (|r| == width || |r| == width - 1)
      && r[pad..pad + |visible|] == visible
      && (forall i :: 0 <= i < pad ==> r[i] == ' ')
      && (forall i :: |r| - pad <= i < |r| ==> r[i] == ' ')
  {
    var padding := Spaces((width - |visible|) / 2);
    padding + visible + padding
  }

  /** Padding adds spaces only: every other character occurs as often as in the text. */
  lemma PaddedCounts(visible: string, width: nat, c: char)
    requires |visible| <= width && c != ' '
    ensures multiset(Padded(visible, width))[c] == multiset(visible)[c]
  {
    var padding := Spaces((width - |visible|) / 2);
    assert Padded(visible, width) == padding + visible + padding;
    assert c !in padding;
  }

  /** `display_background_color`. */
  function BackgroundColor(w: WindowData, config: Config): (r: string)
    ensures w.active ==> r == config.activeBackgroundColor
    ensures !w.active ==> r == config.backgroundColor
  {
    if w.active then config.activeBackgroundColor else config.backgroundColor
  }

  /** The template of `as_display_str`: the text in a monospace span of the configured
      line height and the given background colour, one space on each side. */
  function Span(lineHeight: string, color: string, formatted: string): (r: string)
    ensures |r| == |lineHeight| + |color| + |formatted| + 53
    ensures r[..23] == "<tt><span line_height=\"" && r[23..23 + |lineHeight|] == lineHeight
    ensures r[23 + |lineHeight|..37 + |lineHeight|] == "\" background=\""
    ensures r[37 + |lineHeight|..37 + |lineHeight| + |color|] == color
    ensures r[37 + |lineHeight| + |color|..39 + |lineHeight| + |color|] == "\">"
    ensures r[|r| - |formatted| - 14..] == " " + formatted + " </span></tt>"
  {
    "<tt><span line_height=\"" + lineHeight + "\" background=\"" + color + "\"> "
    + formatted + " </span></tt>"
  }
}
