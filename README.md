# waybar-groupie window snapshot and layout, in Dafny

waybar-groupie is a Waybar module for the Hyprland compositor. On every compositor event it
builds a snapshot of the windows on the active workspace. It asks `hyprctl` for the active
workspace (its `id` and the `lastwindow` address of the focused window) and for the client
list. It keeps the clients on that workspace and validates each one into a `WindowData`
(title, application name, active flag and the window's index within its group). It then
stably orders them by group index. Each window is rendered as a monospace Pango span of
fixed width. The text is `"{app}: {title}"` with the `" - {app}"` suffix removed from the
title. It is cut to `width - 3` characters plus `...` when its printable part is too long,
centred with spaces otherwise, and in bold when the window is focused.

The modules follow the program's files:

- `Errors` (`src/error.rs`): the three error kinds and their rendering.
- `Json`: the part of a JSON document value that the code reads.
- `Text`: the Rust string operations the layout relies on. A string is a sequence of
  Unicode scalar values, and its length in bytes is the length of its UTF-8 encoding.
  The module covers `char_indices().nth`, `String::truncate`, `str::replace` with an empty
  replacement, and the two character-class regular expressions `[^ -~]+` and `[<>]+`.
- `Window` (`src/window/mod.rs`): `WindowData` and `from_json_data`.
- `Fetch` (`src/window/fetch.rs`): `fetch_active_windows_data`. It is a function of the two
  query responses, with a method that copies the batch into an array and sorts it in place
  (a stable insertion sort). The method is proved equal to that function.
- `Layout`: what both revisions of the display code share.
- `Display` (`src/window/display/mod.rs`): the current revision. It cuts at a character
  boundary and removes angle brackets.
- `DisplayLegacy` (`src/window/display.rs`): the earlier revision. It cuts at a byte offset
  and does not sanitise.

Wherever the program would panic, the model returns `None`. There are three such places:

- an `unwrap` on `None`;
- `width - 3` underflowing `usize` (debug-build semantics);
- `String::truncate` at an offset that is not a character boundary.

The two `hyprctl` calls are parameters: each response is either a JSON value or the error
of running the command.

The two files disagree on one name. `src/window/fetch.rs` builds `Error::DataFetchError`,
while `src/error.rs` declares that kind as `DataFetch`; the two come from revisions that
do not compile together. The model uses the declared name, `Errors.DataFetch`, for both.

## Model

| member | source | states |
|---|---|---|
| Errors.Display | src/error.rs:7-15 | the rendering is the kind's fixed label followed by the message; the labels are "Data fetching error: ", "Wiindow data parsing error: " (the program's spelling) and "Shell command error: " |
| Errors.AsString | src/error.rs:17-21 | `as_string` gives the label of the kind followed by the message, for each of the three kinds |
| Errors.DisplayInjective | src/error.rs:7-15 | two errors that render to the same string are the same error (same kind and same message) |
| Json.Index | src/window/fetch.rs:29-31 | indexing an object by a key it holds gives that field; a missing key or a value that is not an object gives `Null` (serde_json's `Index` on `&str`) |
| Json.AsStr | src/window/mod.rs:17-19 | a string value gives its text; every other kind of value gives none |
| Json.AsArray | src/window/fetch.rs:22-26 | an array value gives its elements; every other kind of value gives none |
| Json.AsI64 | src/window/fetch.rs:9-11 | a value is accepted as an id exactly when it is an integer in the signed 64-bit range, and the id is that integer; floats, out-of-range integers and every other kind of value give none |
| Text.Utf8Len | src/window/display/mod.rs:34 | a character takes 1 to 4 bytes, and exactly 1 when it is ASCII |
| Text.ByteLen | src/window/display/mod.rs:34 | `len()` lies between the character count and four times the character count |
| Text.ByteLenAscii | src/window/display/mod.rs:34 | the byte length equals the character count exactly when the string is ASCII |
| Text.CharIndexNth | src/window/display/mod.rs:36 | `char_indices().nth(n)` exists exactly when the string has more than `n` characters, and it is the byte length of the first `n` characters |
| Text.BytePrefix | src/window/display.rs:29 | a prefix of `n` bytes, when there is one, is a prefix of the string whose UTF-8 length is exactly `n` |
| Text.CharBoundaryRange | src/window/display.rs:29 | offset 0 and the byte length are char boundaries, and no boundary lies past the end |
| Text.BytePrefixBoundary | src/window/display.rs:29 | a prefix of exactly `n` bytes exists exactly when `n` is a character boundary |
| Text.BytePrefixAt | src/window/display/mod.rs:36-37 | cutting at the byte offset of character `k` leaves the first `k` characters |
| Text.Truncate | src/window/display.rs:29 | `truncate` does nothing at or past the end; otherwise the result is a prefix whose byte length is exactly the new length |
| Text.TruncateSucceeds | src/window/display.rs:29 | `truncate` does not panic exactly when the new length is at or past the end or is a character boundary |
| Text.RemoveAll | src/window/display/mod.rs:25 | removing occurrences never lengthens the string |
| Text.RemoveAllNoOccurrence | src/window/display/mod.rs:25 | a title that does not contain the pattern is unchanged |
| Text.RemoveAllLeftmost | src/window/display/mod.rs:25 | the leftmost occurrence is deleted wherever it stands, and the scan resumes after it |
| Text.Visible | src/window/display/mod.rs:29-32 | the filtered text is all printable ASCII and no longer than the input |
| Text.VisibleCount | src/window/display/mod.rs:29-32 | every printable character is kept as often as it occurs, and every other character is dropped |
| Text.VisibleConcat | src/window/display/mod.rs:29-32 | filtering distributes over concatenation, so the kept characters stay in order |
| Text.VisibleClean | src/window/display/mod.rs:29-32 | an all-printable string is unchanged, so filtering is idempotent |
| Text.VisibleByteLen | src/window/display/mod.rs:34 | the visible text's byte length equals its character count, so comparing `len()` with the width compares characters |
| Text.Sanitize | src/window/display/mod.rs:20-22 | the sanitised text has no `<` or `>` and is no longer than the input |
| Text.SanitizeCount | src/window/display/mod.rs:20-22 | every character other than `<` and `>` is kept as often as it occurs |
| Text.SanitizeConcat | src/window/display/mod.rs:20-22 | sanitising distributes over concatenation, so the kept characters stay in order |
| Text.SanitizeClean | src/window/display/mod.rs:20-22 | text without angle brackets is unchanged, so sanitising is idempotent |
| Text.SanitizeDropsBrackets | src/window/display/mod.rs:20-22 | a trailing `<>` after text without angle brackets is removed and the text is kept |
| Text.SanitizeExample | src/window/display/test.rs:3-6 | "Mozilla Firefox: <>" sanitises to "Mozilla Firefox: " |
| Text.Spaces | src/window/display/mod.rs:40 | `" ".repeat(n)` is exactly `n` spaces |
| Window.Position | src/window/mod.rs:34-36 | the group index is the first position of the window's address in the group, or `usize::MAX` when the address is absent |
| Window.Strings | src/window/mod.rs:26-33 | the group list converts exactly when every element is a string, and then element by element |
| Window.FromJsonData | src/window/mod.rs:16-55 | every rejection is a `WindowDataParsing` error |
| Window.FromJsonDataOutcome | src/window/mod.rs:16-55 | the fields are checked in the order address, grouped, title, initialTitle, and the first malformed one decides the error; an entry is accepted exactly when all four are well formed; the window is active exactly when its address is the focused one, and it carries the title, the initial title and the group index |
| Layout.Body | src/window/display/mod.rs:25-27 | the text starts with `"{app}: "`, and the title part is no longer than the title |
| Layout.BodyKeepsPlainTitle | src/window/display/mod.rs:25-27 | a title without `" - {app}"` appears after `"{app}: "` unchanged |
| Layout.BodyStripsSuffix | src/window/display/mod.rs:25-27 | the first `" - {app}"` is deleted from anywhere in the title, not only at its end, and the rest of the title is treated the same way |
| Layout.Padded | src/window/display/mod.rs:40-49 | the text is centred between equal runs of spaces, and the result is `width` or `width - 1` characters long (an odd leftover column is dropped) |
| Layout.PaddedCounts | src/window/display/mod.rs:40-49 | padding adds only spaces |
| Layout.Span | src/window/display/mod.rs:12-17 | the span is, piece by piece, `<tt><span line_height="`, the line height, `" background="`, the colour, `">`, a space, the text, a space and `</span></tt>`; its length is the three parts plus the 53 characters of fixed markup |
| Layout.BackgroundColor | src/window/display/mod.rs:66-72 | the active colour for the focused window and the plain colour otherwise |
| Display.LaidOut | src/window/display/mod.rs:34-50 | no panic exactly when the visible text fits or the width is at least 3; a long text becomes its first `width - 3` characters plus "..."; a fitting text is the centred visible text |
| Display.LaidOutFits | src/window/display/mod.rs:34-50 | a cut text is exactly `width` characters, a padded one `width` or `width - 1`, and at most `width` once sanitised |
| Display.TruncationBoundary | src/window/display/mod.rs:34-38 | visible text of exactly `width` characters is shown whole at any width; with one more character and a width of at least 3, the text becomes its first `width - 3` characters plus "..." |
| Display.LaidOutKeepsClean | src/window/display/mod.rs:34-50 | a body without angle brackets is laid out without any |
| Display.FormattedText | src/window/display/mod.rs:24-64 | no panic under the same condition as the layout; the text is the laid-out body with its angle brackets removed, wrapped in `<b>`…`</b>` exactly when the window is active; so the inactive text has no angle brackets and fits the width, and the active text is `<b>`, bracket-free text of at most `width` characters, `</b>` |
| Display.FormattedTextMarkup | src/window/display/mod.rs:52-63 | the only `<` and `>` in the formatted text are the two pairs of the bold tags of the active window |
| Display.AsDisplayStr | src/window/display/mod.rs:11-18 | the result is the span with the configured line height, the active colour for the focused window and the plain one otherwise, around the formatted text; that content is bracket-free text of at most `width` characters, in bold exactly when the window is active |
| DisplayLegacy.LaidOut | src/window/display.rs:17-42 | no panic exactly when the visible text fits, or when the width is at least 3 and byte `width - 3` is a character boundary; a cut text is a prefix of exactly `width - 3` bytes followed by "..."; a fitting text is the centred visible text |
| DisplayLegacy.FormattedText | src/window/display.rs:17-53 | no panic exactly when the layout does not panic; the active text is the laid-out text in `<b>`…`</b>`, and the inactive text is the laid-out text unchanged |
| DisplayLegacy.AsDisplayStr | src/window/display.rs:8-15 | the same span as the current revision, around this revision's formatted text |
| DisplayLegacy.PaddedKeepsAngles | src/window/display.rs:31-42 | centring keeps every `<` and `>` of a fitting body |
| DisplayLegacy.AnglesPassThrough | src/window/display.rs:31-50 | every angle bracket of a fitting body reaches the markup, plus the bold tags of the active window |
| DisplayLegacy.LaidOutAgreesOnAscii | src/window/display.rs:27-30 | on an ASCII body the byte cut and the character cut of the current revision give the same text |
| DisplayLegacy.FormattedTextAgreesWhenClean | src/window/display.rs:17-53 | on an ASCII body without angle brackets both revisions produce the same formatted text |
| DisplayLegacy.ByteCutPanics | src/window/display.rs:27-30 | when byte `width - 3` of a text that is too long falls inside a character, this revision panics and the current one does not |
| DisplayLegacy.ByteCutPanicsExample | src/window/display.rs:29 | title "xyz", an application name of one non-ASCII character `c` (such as "é"), width 4: this revision panics; the current one shows `c` followed by "..." |
| DisplayLegacy.MarkupLeakExample | src/window/display.rs:46-50 | title `<c>`, application "a", width 10: this revision emits the brackets into the markup; the current one emits `c` alone |
| Fetch.OnWorkspace | src/window/fetch.rs:29-33 | an entry is on the workspace exactly when its `workspace` field is an object whose `id` is the integer id, within the signed 64-bit range |
| Fetch.OnActiveWorkspace | src/window/fetch.rs:22-34 | every retained entry has `workspace.id` equal to the active workspace's id |
| Fetch.OnActiveWorkspaceCounts | src/window/fetch.rs:29-33 | each entry on the workspace is kept as often as it occurs; no other entry is kept |
| Fetch.OnActiveWorkspaceConcat | src/window/fetch.rs:27-34 | filtering distributes over concatenation, so retained entries keep their order |
| Fetch.ParseWindows | src/window/fetch.rs:36-40 | the batch succeeds exactly when every entry is accepted, and then gives each entry's window in entry order |
| Fetch.FirstFailure | src/window/fetch.rs:36-40 | the first rejected entry: all earlier entries are accepted |
| Fetch.ParseWindowsFirstError | src/window/fetch.rs:36-40 | a failed batch reports the error of its first rejected entry |
| Fetch.InsertByGroup | src/window/fetch.rs:42 | inserting adds one element; the last element is the new window unless the last window of the input has a larger group index, which then stays last |
| Fetch.InsertByGroupElements | src/window/fetch.rs:42 | inserting a window adds that window and keeps every other one |
| Fetch.InsertByGroupSorted | src/window/fetch.rs:42 | inserting into a sorted sequence keeps it sorted by group index |
| Fetch.InsertByGroupTies | src/window/fetch.rs:42 | the inserted window comes after every earlier window of its group index |
| Fetch.StableSortByGroup | src/window/fetch.rs:42 | the sort keeps the number of windows (the lemmas below state the order and the permutation) |
| Fetch.StableSortByGroupCorrect | src/window/fetch.rs:42 | the stable sort is sorted by group index, is a permutation of its input, and keeps input order among equal group indices |
| Fetch.SortedTiesDetermine | src/window/fetch.rs:42 | two sequences sorted by group index that agree on the order within every group index are equal |
| Fetch.StableSortByGroupUnique | src/window/fetch.rs:42 | any sorted order that keeps ties in input order (what a stable `sort_by` yields) equals the modelled sort |
| Fetch.SortByGroupIndex | src/window/fetch.rs:42 | sorting the array in place leaves the stable sort of its former contents |
| Fetch.InsertIntoSortedPrefix | src/window/fetch.rs:42 | one insertion step puts `a[i]` into the sorted prefix and leaves the rest of the array untouched |
| Fetch.FetchActiveWindows | src/window/fetch.rs:6-45 | query errors propagate unchanged; a missing or non-i64 id, a missing focused window address, and a non-array client list each give their own `DataFetch` error, checked in that order |
| Fetch.FetchActiveWindowsFailure | src/window/fetch.rs:22-44 | with well-formed responses, the fetch succeeds exactly when every entry on the workspace is accepted; otherwise it fails with the first rejected entry's error |
| Fetch.FetchActiveWindowsSuccess | src/window/fetch.rs:22-44 | a successful fetch has one window per entry on the workspace, sorted by group index; it is a permutation of the entries' windows and keeps client-list order among equal group indices |
| Fetch.ActiveCountZero | src/window/mod.rs:45 | no window is counted as active exactly when no window is active |
| Fetch.ActiveCountAtMostOne | src/window/mod.rs:45 | at most one window is counted as active exactly when no two windows are active |
| Fetch.InsertByGroupActive | src/window/fetch.rs:42 | inserting a window adds one to the active count exactly when that window is active |
| Fetch.StableSortByGroupActive | src/window/fetch.rs:42 | sorting keeps the number of active windows |
| Fetch.ParsedActive | src/window/mod.rs:17-45 | in a validated batch, a window is active exactly when its entry's address is the focused window's address |
| Fetch.FetchActiveWindowsSomeActive | src/window/fetch.rs:13-44 | a successful fetch has an active window exactly when some entry on the workspace has the focused window's address |
| Fetch.FetchActiveWindowsOneActive | src/window/fetch.rs:27-44 | when the entries on the workspace have pairwise different addresses, a successful fetch has at most one active window |
| Fetch.FetchActiveWindowsData | src/window/fetch.rs:6-45 | copying the batch into an array and sorting it in place gives exactly the result of the fetch function |

## Left out

- The event loop, the Hyprland socket, running shell commands, reading the configuration, logging and `main` are I/O. They are not part of this model. The two `hyprctl` responses are parameters instead.
- Splitting the module width among windows and joining them with the separator happen outside the modelled functions and are not modelled.
- The regular expressions are modelled by what they match (single-class runs removed), not by a regex engine.
- `line_height` is an `f32` in the configuration. It is kept as the text it prints as, because floating-point formatting is not modelled.
- `Layout.Config` holds only the three settings the display code reads. The separator, the socket address, the empty-window text and the module width are read elsewhere; the width of one window is a parameter of the layout functions.
- `background_color` and `active_background_color` are read by the display code, but `src/config.rs` does not declare them. `Layout.Config` carries them as plain strings.
- The integer width of `usize` is not modelled, except that an absent address gives `usize::MAX`. For `width - 3`, the model takes the debug-build behaviour (a panic) rather than release-build wrap-around.
- Window.FromJsonData: its own contract says only that every error is a parsing error; Window.FromJsonDataOutcome states the error order, the acceptance condition and the fields, to keep the batch proofs small.
- Fetch.StableSortByGroup: its own contract is only the length; Fetch.StableSortByGroupCorrect and Fetch.StableSortByGroupUnique state sortedness, permutation and stability, to keep the quantified facts out of every caller.
- Fetch.FetchActiveWindowsOneActive: at most one active window is proved only for entries with pairwise different addresses. The program compares each entry's address with the focused one and removes no duplicates, so it relies on the compositor never reporting two windows with the same address; the model does not state that about the compositor.
- Text.RemoveAll: its own contract is only a length bound; the lemmas Text.RemoveAllNoOccurrence and Text.RemoveAllLeftmost state what it deletes.

## Findings

| source | as written | input that shows it | evidently intended | confidence | as-written member | corrected member |
|---|---|---|---|---|---|---|
| src/window/display.rs:29 | `text.truncate(width - 3)` cuts at byte `width - 3`, which panics when that byte falls inside a multi-byte character | title "xyz", application name "é", width 4: byte 1 is inside "é" | cut after `width - 3` characters, as src/window/display/mod.rs:36-37 later does | not executed | DisplayLegacy.ByteCutPanicsExample | Display.LaidOut |
| src/window/display.rs:46-50 | the window text goes into the Pango markup unsanitised, so a title's `<` and `>` become markup | title "<i>", application "a", width 10 | remove angle brackets before wrapping, as src/window/display/mod.rs:52 later does | not executed | DisplayLegacy.MarkupLeakExample | Display.FormattedTextMarkup |
