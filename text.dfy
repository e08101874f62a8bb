/** The operations of Rust's `str`/`String` and of the two character-class regular
    expressions that the layout code relies on. A Rust string is modelled as its sequence of
    Unicode scalar values; its length in bytes is the length of its UTF-8 encoding. */
module Text {
  import opened Wrappers

  /** Number of bytes UTF-8 uses for one scalar value. */
  function Utf8Len(c: char): (n: nat)
    ensures 1 <= n <= 4
    ensures n == 1 <==> c as int < 0x80
  {
    if c as int < 0x80 then 1
    else if c as int < 0x800 then 2
    else if c as int < 0x1_0000 then 3
    else 4
  }

  /** `str::len`: the length of the UTF-8 encoding. */
  function ByteLen(s: string): (n: nat)
    ensures |s| <= n <= 4 * |s|
  {
    if s == [] then 0 else Utf8Len(s[0]) + ByteLen(s[1..])
  }

  lemma {:induction false} ByteLenConcat(a: string, b: string)
    ensures ByteLen(a + b) == ByteLen(a) + ByteLen(b)
  {
    if a != [] {
      assert (a + b)[1..] == a[1..] + b;
      ByteLenConcat(a[1..], b);
    } else {
      assert a + b == b;
    }
  }

  predicate IsAscii(s: string) {
    forall i :: 0 <= i < |s| ==> s[i] as int < 0x80
  }

  /** A string's byte length equals its character count exactly when it is pure ASCII. */
  lemma {:induction false} ByteLenAscii(s: string)
    ensures ByteLen(s) == |s| <==> IsAscii(s)
  {
    if s != [] {
      ByteLenAscii(s[1..]);
      assert IsAscii(s) <==> s[0] as int < 0x80 && IsAscii(s[1..]) by {
        if IsAscii(s[1..]) && s[0] as int < 0x80 {
          forall i | 0 <= i < |s| ensures s[i] as int < 0x80 {
            if i > 0 { assert s[i] == s[1..][i - 1]; }
          }
        }
      }
    }
  }

  /** The prefix of the first `k` characters is `ByteLen(s[..k])` bytes long, and `k` more
      characters never make it shorter. */
  lemma ByteLenPrefixMonotone(s: string, j: nat, k: nat)
    requires j <= k <= |s|
    ensures ByteLen(s[..j]) + (k - j) <= ByteLen(s[..k])
  {
    assert s[..k] == s[..j] + s[j..k];
    ByteLenConcat(s[..j], s[j..k]);
  }

  /** `n` is a char boundary of `s` (as `str::is_char_boundary` decides): some prefix of
      whole characters is exactly `n` bytes long. */
  ghost predicate IsCharBoundary(s: string, n: nat) {
    exists k :: 0 <= k <= |s| && ByteLen(s[..k]) == n
  }

  /** The start and the end of a string are char boundaries, and no boundary lies past
      the end. */
  lemma CharBoundaryRange(s: string, n: nat)
    ensures IsCharBoundary(s, 0) && IsCharBoundary(s, ByteLen(s))
    ensures IsCharBoundary(s, n) ==> n <= ByteLen(s)
  {
    assert ByteLen(s[..0]) == 0 by {
      assert s[..0] == [];
    }
    assert s[..|s|] == s;
    if IsCharBoundary(s, n) {
      var k :| 0 <= k <= |s| && ByteLen(s[..k]) == n;
      ByteLenPrefixMonotone(s, k, |s|);
    }
  }

  /** `s.char_indices().nth(n).map(|(i, _)| i)`: the byte offset at which the character
      numbered `n` starts, or None when `s` has no such character. */
  function CharIndexNth(s: string, n: nat): (r: Option<nat>)
    ensures r.Some? <==> n < |s|
    ensures r.Some? ==> r.value == ByteLen(s[..n])
  {
    if s == [] then None
    else if n == 0 then Some(0)
    else
      match CharIndexNth(s[1..], n - 1)
      case None => None
      case Some(i) =>
        assert s[..n][1..] == s[1..][..n - 1];
        Some(Utf8Len(s[0]) + i)
  }

  /** The prefix of `s` that is exactly `n` bytes long, or None when byte `n` falls inside
      the encoding of a character or beyond the end of `s`. */
  function BytePrefix(s: string, n: nat): (r: Option<string>)
    ensures r.Some? ==> r.value <= s && ByteLen(r.value) == n
  {
    if n == 0 then Some([])
    else if s == [] || n < Utf8Len(s[0]) then None
    else
      match BytePrefix(s[1..], n - Utf8Len(s[0]))
      case None => None
      case Some(p) => Some([s[0]] + p)
  }

  /** A byte prefix exists exactly at the char boundaries. */
  lemma {:induction false} BytePrefixBoundary(s: string, n: nat)
    ensures BytePrefix(s, n).Some? <==> IsCharBoundary(s, n)
  {
    var r := BytePrefix(s, n);
    if r.Some? {
      var k := |r.value|;
      assert s[..k] == r.value;
    }
    if IsCharBoundary(s, n) {
      var k :| 0 <= k <= |s| && ByteLen(s[..k]) == n;
      BytePrefixAt(s, k);
    }
  }

  /** The byte length of the first `k` characters is a boundary, and the prefix found there
      is those `k` characters. */
  lemma {:induction false} BytePrefixAt(s: string, k: nat)
    requires k <= |s|
    ensures BytePrefix(s, ByteLen(s[..k])) == Some(s[..k])
  {
    assert s == s[..k] + s[k..];
    BytePrefixOfConcat(s[..k], s[k..]);
  }

  /** Cutting `p + q` after the bytes of `p` leaves `p`. */
  lemma {:induction false} BytePrefixOfConcat(p: string, q: string)
    ensures BytePrefix(p + q, ByteLen(p)) == Some(p)
  {
    if p != [] {
      var s := p + q;
      assert s[0] == p[0] && s[1..] == p[1..] + q;
      BytePrefixOfConcat(p[1..], q);
      assert [p[0]] + p[1..] == p;
    }
  }

  /** `String::truncate(new_len)`: no effect when `new_len` is not below the byte length;
      otherwise cut to `new_len` bytes, which panics (None) unless `new_len` is a char
      boundary. */
  function Truncate(s: string, newLen: nat): (r: Option<string>)
    ensures newLen >= ByteLen(s) ==> r == Some(s)
    ensures newLen < ByteLen(s) && r.Some? ==> r.value <= s && ByteLen(r.value) == newLen
  {
    if newLen >= ByteLen(s) then Some(s) else BytePrefix(s, newLen)
  }

  /** Truncation succeeds exactly when the new length is past the end or on a char
      boundary. */
  lemma TruncateSucceeds(s: string, newLen: nat)
    ensures Truncate(s, newLen).Some? <==> newLen >= ByteLen(s) || IsCharBoundary(s, newLen)
  {
    BytePrefixBoundary(s, newLen);
  }

  // ---------------------------------------------------------------------------------------
  // `str::replace(pat, "")`

  /** `pat` occurs in `s` starting at character `i`. */
  predicate OccursAt(s: string, pat: string, i: nat) {
    i + |pat| <= |s| && s[i..i + |pat|] == pat
  }

  /** `s.replace(pat, "")` for a non-empty `pat`: the non-overlapping occurrences of `pat`,
      found left to right, are deleted. */
  function RemoveAll(s: string, pat: string): (r: string)
    requires |pat| > 0
    ensures |r| <= |s|
    decreases |s|
  {
    if |s| < |pat| then s
    else if s[..|pat|] == pat then RemoveAll(s[|pat|..], pat)
    else [s[0]] + RemoveAll(s[1..], pat)
  }

  /** A string without any occurrence of the pattern is left as it is. */
  lemma {:induction false} RemoveAllNoOccurrence(s: string, pat: string)
    requires |pat| > 0
    requires forall i: nat :: !OccursAt(s, pat, i)
    ensures RemoveAll(s, pat) == s
    decreases |s|
  {
    if |s| >= |pat| {
      assert !OccursAt(s, pat, 0);
      forall i: nat ensures !OccursAt(s[1..], pat, i) {
        assert !OccursAt(s, pat, i + 1);
        if i + |pat| <= |s[1..]| {
          assert s[1..][i..i + |pat|] == s[i + 1..i + 1 + |pat|];
        }
      }
      RemoveAllNoOccurrence(s[1..], pat);
    }
  }

  /** The leftmost occurrence is deleted, wherever it stands, and the scan goes on after it:
      if `pat` first occurs in `x + pat + y` at character `|x|`, the result is `x` followed by
      the result for `y`. */
  lemma {:induction false} RemoveAllLeftmost(x: string, pat: string, y: string)
    requires |pat| > 0
    requires forall i: nat :: i < |x| ==> !OccursAt(x + pat + y, pat, i)
    ensures RemoveAll(x + pat + y, pat) == x + RemoveAll(y, pat)
    decreases |x|
  {
    if x == [] {
      assert x + pat + y == pat + y;
      RemoveAllAtStart(pat, y);
    } else {
      var s, t := x + pat + y, x[1..] + pat + y;
      assert s[1..] == t && s[0] == x[0];
      assert |s| >= |pat| && s[..|pat|] != pat by {
        assert !OccursAt(s, pat, 0);
      }
      RemoveAllSkip(s, pat);
      NoEarlierOccurrenceTail(x, pat, y);
      RemoveAllLeftmost(x[1..], pat, y);
      var rest := RemoveAll(y, pat);
      assert [x[0]] + (x[1..] + rest) == x + rest by {
        assert [x[0]] + x[1..] == x;
      }
    }
  }

  /** An occurrence at the start is deleted and the scan resumes after it. */
  lemma RemoveAllAtStart(pat: string, y: string)
    requires |pat| > 0
    ensures RemoveAll(pat + y, pat) == RemoveAll(y, pat)
  {
    var s := pat + y;
    assert s[..|pat|] == pat && s[|pat|..] == y;
  }

  /** A first character that does not start an occurrence is kept. */
  lemma RemoveAllSkip(s: string, pat: string)
    requires |pat| > 0 && |s| >= |pat| && s[..|pat|] != pat
    ensures RemoveAll(s, pat) == [s[0]] + RemoveAll(s[1..], pat)
  {
  }

  /** Dropping the first character of `x` keeps the pattern out of the positions before
      `pat`. */
  lemma NoEarlierOccurrenceTail(x: string, pat: string, y: string)
    requires x != []
    requires forall i: nat :: i < |x| ==> !OccursAt(x + pat + y, pat, i)
    ensures forall i: nat :: i < |x[1..]| ==> !OccursAt(x[1..] + pat + y, pat, i)
  {
    var s, t := x + pat + y, x[1..] + pat + y;
    assert s[1..] == t;
    forall i: nat | i < |x[1..]| ensures !OccursAt(t, pat, i) {
      assert !OccursAt(s, pat, i + 1);
      if i + |pat| <= |t| {
        assert t[i..i + |pat|] == s[i + 1..i + 1 + |pat|];
      }
    }
  }

  // ---------------------------------------------------------------------------------------
  // The two character-class filters: `[^ -~]+` and `[<>]+` replaced by "".

  /** Printable ASCII, the class `[ -~]`. */
  predicate IsPrintable(c: char) {
    ' ' <= c <= '~'
  }

  predicate AllPrintable(s: string) {
    forall i :: 0 <= i < |s| ==> IsPrintable(s[i])
  }

  /** Deleting every run of characters outside `[ -~]` keeps exactly the printable ones, in
      order. */
  function Visible(s: string): (r: string)
    ensures AllPrintable(r) && |r| <= |s|
  {
    if s == [] then []
    else if IsPrintable(s[0]) then [s[0]] + Visible(s[1..]) else Visible(s[1..])
  }

  /** Each printable character occurs in the visible text as often as in the text, and
      every other character not at all. */
  lemma {:induction false} VisibleCount(s: string, c: char)
    ensures multiset(Visible(s))[c] == if IsPrintable(c) then multiset(s)[c] else 0
  {
    if s != [] {
      assert s == [s[0]] + s[1..];
      VisibleCount(s[1..], c);
    }
  }

  /** Filtering distributes over concatenation, which is what "in order" means. */
  lemma {:induction false} VisibleConcat(a: string, b: string)
    ensures Visible(a + b) == Visible(a) + Visible(b)
  {
    if a == [] {
      assert a + b == b;
    } else {
      assert (a + b)[0] == a[0];
      assert (a + b)[1..] == a[1..] + b;
      VisibleConcat(a[1..], b);
    }
  }

  /** Filtering a string that is all printable leaves it unchanged, so filtering is
      idempotent. */
  lemma {:induction false} VisibleClean(s: string)
    requires AllPrintable(s)
    ensures Visible(s) == s
  {
    if s != [] {
      assert IsPrintable(s[0]);
      VisibleClean(s[1..]);
    }
  }

  /** The visible text is ASCII, so its byte length is its character count. */
  lemma VisibleByteLen(s: string)
    ensures ByteLen(Visible(s)) == |Visible(s)|
  {
    var v := Visible(s);
    assert IsAscii(v) by {
      forall i | 0 <= i < |v| ensures v[i] as int < 0x80 {
        assert IsPrintable(v[i]);
      }
    }
    ByteLenAscii(v);
  }

  predicate IsAngle(c: char) {
    c == '<' || c == '>'
  }

  predicate NoAngle(s: string) {
    forall i :: 0 <= i < |s| ==> !IsAngle(s[i])
  }

  /** A string is free of angle brackets exactly when it counts none of either. */
  lemma NoAngleCounts(s: string)
    ensures NoAngle(s) <==> multiset(s)['<'] == 0 && multiset(s)['>'] == 0
  {
    if multiset(s)['<'] == 0 && multiset(s)['>'] == 0 {
      forall i | 0 <= i < |s| ensures !IsAngle(s[i]) {
        assert s[i] in multiset(s);
      }
    }
    if multiset(s)['<'] != 0 {
      assert '<' in s;
    }
    if multiset(s)['>'] != 0 {
      assert '>' in s;
    }
  }

  /** Deleting every run of `<` and `>` keeps all other characters, in order. */
  function Sanitize(s: string): (r: string)
    ensures NoAngle(r) && |r| <= |s|
  {
    if s == [] then []
    else if IsAngle(s[0]) then Sanitize(s[1..]) else [s[0]] + Sanitize(s[1..])
  }

  /** Every character other than `<` and `>` occurs in the result as often as in the
      text. */
  lemma {:induction false} SanitizeCount(s: string, c: char)
    requires !IsAngle(c)
    ensures multiset(Sanitize(s))[c] == multiset(s)[c]
  {
    if s != [] {
      assert s == [s[0]] + s[1..];
      SanitizeCount(s[1..], c);
    }
  }

  lemma {:induction false} SanitizeConcat(a: string, b: string)
    ensures Sanitize(a + b) == Sanitize(a) + Sanitize(b)
  {
    if a == [] {
      assert a + b == b;
    } else {
      assert (a + b)[0] == a[0];
      assert (a + b)[1..] == a[1..] + b;
      SanitizeConcat(a[1..], b);
    }
  }

  /** Sanitizing a string that has no angle brackets leaves it unchanged, so sanitizing is
      idempotent. */
  lemma {:induction false} SanitizeClean(s: string)
    requires NoAngle(s)
    ensures Sanitize(s) == s
  {
    if s != [] {
      assert !IsAngle(s[0]);
      SanitizeClean(s[1..]);
    }
  }

  /** A trailing `<>` after text without angle brackets is removed and nothing else is. */
  lemma SanitizeDropsBrackets(text: string)
    requires NoAngle(text)
    ensures Sanitize(text + "<>") == text
  {
    var brackets := "<>";
    assert Sanitize(brackets) == [] by {
      assert brackets[1..] == ">";
    }
    SanitizeClean(text);
    SanitizeConcat(text, brackets);
  }

  /** The example of the program's own unit test. */
  lemma SanitizeExample()
    ensures Sanitize("Mozilla Firefox: <>") == "Mozilla Firefox: "
  {
    var text := "Mozilla Firefox: ";
    assert text + "<>" == "Mozilla Firefox: <>";
    assert NoAngle(text);
    SanitizeDropsBrackets(text);
  }

  /** `" ".repeat(n)`. */
  function Spaces(n: nat): (r: string)
    ensures |r| == n && forall i :: 0 <= i < n ==> r[i] == ' '
  {
    seq(n, _ => ' ')
  }
}
