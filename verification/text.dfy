/**
 The string operations of Rust's `str` that the deep-link intake relies on:
 `trim`, `trim_matches`, `starts_with`, `find`, `contains` and the byte
 length `len`. A Rust string is modelled as the sequence of its Unicode
 scalar values; positions are character positions, so a slice taken at the
 position `find` reports is the same text Rust slices at its byte offset.
 */
module Text {
  import opened Wrappers

  /** Rust's `char::is_whitespace`: ASCII tab to carriage return, space, and
      the other characters with the Unicode White_Space property. */
  predicate IsWhitespace(c: char)
  {
    || ('\t' <= c <= '\r')
    || c == ' '
    || c == '\U{0085}'
    || c == '\U{00A0}'
    || c == '\U{1680}'
    || ('\U{2000}' <= c <= '\U{200A}')
    || c == '\U{2028}'
    || c == '\U{2029}'
    || c == '\U{202F}'
    || c == '\U{205F}'
    || c == '\U{3000}'
  }

  /** Number of bytes the UTF-8 encoding of `c` takes. */
  function Utf8Width(c: char): (n: nat)
    ensures 1 <= n <= 4
    ensures n == 1 <==> c as int < 0x80
  {
    if c as int < 0x80 then 1
    else if c as int < 0x800 then 2
    else if c as int < 0x1_0000 then 3
    else 4
  }

  /** Rust's `str::len`: the length of the UTF-8 encoding, in bytes. */
  function Utf8Length(s: string): (n: nat)
    ensures |s| <= n <= 4 * |s|
    ensures n == 0 <==> |s| == 0
  {
    if s == [] then 0 else Utf8Width(s[0]) + Utf8Length(s[1..])
  }

  predicate IsAscii(s: string)
  {
    forall i :: 0 <= i < |s| ==> s[i] as int < 0x80
  }

  /** On ASCII text the byte length is the character count. */
  lemma {:induction false} Utf8LengthAscii(s: string)
    requires IsAscii(s)
    ensures Utf8Length(s) == |s|
  {
    if s != [] {
      assert IsAscii(s[1..]) by {
        forall i | 0 <= i < |s[1..]| ensures s[1..][i] as int < 0x80 {
          assert s[1..][i] == s[i + 1];
        }
      }
      Utf8LengthAscii(s[1..]);
    }
  }

  /** Rust's `str::starts_with` for a string pattern. */
  predicate StartsWith(s: string, prefix: string)
  {
    |prefix| <= |s| && s[..|prefix|] == prefix
  }

  /** `pattern` occurs in `s` starting at character position `i`. */
  predicate OccursAt(s: string, pattern: string, i: int)
  {
    0 <= i && i + |pattern| <= |s| && s[i..i + |pattern|] == pattern
  }

  /** The first occurrence of `pattern` in `s` at or after position `from`. */
  function FindFrom(s: string, pattern: string, from: nat): (r: Option<nat>)
    requires from <= |s|
    ensures r.Some? ==> from <= r.value && OccursAt(s, pattern, r.value)
    ensures r.Some? ==> forall k :: from <= k < r.value ==> !OccursAt(s, pattern, k)
    ensures r.None? ==> forall k :: from <= k ==> !OccursAt(s, pattern, k)
    decreases |s| - from
  {
    if from + |pattern| > |s| then None
    else if s[from..from + |pattern|] == pattern then Some(from)
    else FindFrom(s, pattern, from + 1)
  }

  /** Rust's `str::find` for a string pattern: the position of the first
      occurrence, if there is one. */
  function Find(s: string, pattern: string): (r: Option<nat>)
    ensures r.Some? <==> exists k :: OccursAt(s, pattern, k)
    ensures r.Some? ==> OccursAt(s, pattern, r.value)
    ensures r.Some? ==> forall k :: 0 <= k < r.value ==> !OccursAt(s, pattern, k)
  {
    FindFrom(s, pattern, 0)
  }

  /** Rust's `str::contains` for a string pattern. */
  predicate Contains(s: string, pattern: string)
  {
    Find(s, pattern).Some?
  }

  /** Removes every leading character that `strip` selects. */
  function TrimStartBy(s: string, strip: char -> bool): (r: string)
  {
    if s != [] && strip(s[0]) then TrimStartBy(s[1..], strip) else s
  }

  /** Removes every trailing character that `strip` selects. */
  function TrimEndBy(s: string, strip: char -> bool): (r: string)
  {
    if s != [] && strip(s[|s| - 1]) then TrimEndBy(s[..|s| - 1], strip) else s
  }

  /** What `TrimStartBy` leaves is a suffix of `s` that is empty or starts
      with a kept character, and everything cut away was selected. */
  lemma {:induction false} TrimStartByShape(s: string, strip: char -> bool)
    ensures var r := TrimStartBy(s, strip);
      && |r| <= |s| && r == s[|s| - |r|..]
      && (forall i :: 0 <= i < |s| - |r| ==> strip(s[i]))
      && (r == [] || !strip(r[0]))
  {
    if s != [] && strip(s[0]) {
      TrimStartByShape(s[1..], strip);
      var r := TrimStartBy(s[1..], strip);
      assert s[1..][|s[1..]| - |r|..] == s[|s| - |r|..];
    }
  }

  /** What `TrimEndBy` leaves is a prefix of `s` that is empty or ends with
      a kept character, and everything cut away was selected. */
  lemma {:induction false} TrimEndByShape(s: string, strip: char -> bool)
    ensures var r := TrimEndBy(s, strip);
      && |r| <= |s| && r == s[..|r|]
      && (forall i :: |r| <= i < |s| ==> strip(s[i]))
      && (r == [] || !strip(r[|r| - 1]))
  {
    if s != [] && strip(s[|s| - 1]) {
      TrimEndByShape(s[..|s| - 1], strip);
    }
  }

  /** `t` is the contiguous piece `s[start..start + |t|]` of `s`. */
  predicate IsSliceAt(t: string, s: string, start: int)
  {
    0 <= start && start + |t| <= |s| && s[start..start + |t|] == t
  }

  /** Rust's `str::trim_matches` with a character predicate: removes every
      leading and every trailing selected character. */
  function StripBy(s: string, strip: char -> bool): (r: string)
  {
    TrimEndBy(TrimStartBy(s, strip), strip)
  }

  /** What `StripBy` leaves is a piece of `s` that is empty or starts and
      ends with kept characters, and everything cut away on either side
      was selected. */
  lemma StripByShape(s: string, strip: char -> bool)
    ensures exists a ::
      && IsSliceAt(StripBy(s, strip), s, a)
      && (forall i :: 0 <= i < a ==> strip(s[i]))
      && (forall i :: a + |StripBy(s, strip)| <= i < |s| ==> strip(s[i]))
    ensures var r := StripBy(s, strip);
      r == [] || (!strip(r[0]) && !strip(r[|r| - 1]))
  {
    var t := TrimStartBy(s, strip);
    TrimStartByShape(s, strip);
    var r := TrimEndBy(t, strip);
    TrimEndByShape(t, strip);
    var a := |s| - |t|;
    assert IsSliceAt(r, s, a) by {
      assert t == s[a..];
      assert r == t[..|r|];
      assert s[a..a + |r|] == s[a..][..|r|];
    }
    assert forall i :: a + |r| <= i < |s| ==> strip(s[i]) by {
      forall i | a + |r| <= i < |s| ensures strip(s[i]) {
        assert s[i] == t[i - a];
      }
    }
    assert forall i :: 0 <= i < a ==> strip(s[i]);
    assert r == StripBy(s, strip);
    assert && IsSliceAt(StripBy(s, strip), s, a)
           && (forall i :: 0 <= i < a ==> strip(s[i]))
           && (forall i :: a + |StripBy(s, strip)| <= i < |s| ==> strip(s[i]));
    if r != [] {
      assert r[0] == t[0];
    }
  }

  /** Rust's `str::trim`. */
  function Trim(s: string): (r: string)
  {
    StripBy(s, IsWhitespace)
  }

  /** The character class holding exactly `c`. */
  function Is(c: char): char -> bool
  {
    x => x == c
  }

  /** Rust's `str::trim_matches` with a single character. */
  function TrimMatches(s: string, c: char): (r: string)
  {
    StripBy(s, Is(c))
  }

  predicate AllSelected(w: string, strip: char -> bool)
  {
    forall i :: 0 <= i < |w| ==> strip(w[i])
  }

  /** Leading selected characters make no difference to `TrimStartBy`. */
  lemma {:induction false} TrimStartSkipsPadding(w: string, s: string, strip: char -> bool)
    requires AllSelected(w, strip)
    ensures TrimStartBy(w + s, strip) == TrimStartBy(s, strip)
  {
    if w == [] {
      assert w + s == s;
    } else {
      assert strip((w + s)[0]);
      assert (w + s)[1..] == w[1..] + s;
      TrimStartSkipsPadding(w[1..], s, strip);
    }
  }

  /** Trailing selected characters make no difference to `TrimEndBy`. */
  lemma {:induction false} TrimEndSkipsPadding(s: string, w: string, strip: char -> bool)
    requires AllSelected(w, strip)
    ensures TrimEndBy(s + w, strip) == TrimEndBy(s, strip)
  {
    if w == [] {
      assert s + w == s;
    } else {
      var n := |w| - 1;
      assert strip((s + w)[|s + w| - 1]);
      assert (s + w)[..|s + w| - 1] == s + w[..n];
      TrimEndSkipsPadding(s, w[..n], strip);
    }
  }

  /** Trimming the front of `s + w` keeps the tail `w` untouched as long as
      `s` has a kept character. */
  lemma {:induction false} TrimStartAppend(s: string, w: string, strip: char -> bool)
    requires TrimStartBy(s, strip) != []
    ensures TrimStartBy(s + w, strip) == TrimStartBy(s, strip) + w
  {
    if s != [] && strip(s[0]) {
      assert (s + w)[1..] == s[1..] + w;
      TrimStartAppend(s[1..], w, strip);
    } else {
      assert s != [];
      assert (s + w)[0] == s[0];
    }
  }

  /** A string made only of selected characters trims to nothing. */
  lemma {:induction false} TrimStartAllSelected(w: string, strip: char -> bool)
    requires AllSelected(w, strip)
    ensures TrimStartBy(w, strip) == []
  {
    if w != [] {
      TrimStartAllSelected(w[1..], strip);
    }
  }

  /** Stripping ignores selected padding on both sides. */
  lemma StripIgnoresPadding(w1: string, s: string, w2: string, strip: char -> bool)
    requires AllSelected(w1, strip) && AllSelected(w2, strip)
    ensures StripBy(w1 + s + w2, strip) == StripBy(s, strip)
  {
    assert w1 + s + w2 == w1 + (s + w2);
    TrimStartSkipsPadding(w1, s + w2, strip);
    var t := TrimStartBy(s, strip);
    if t == [] {
      TrimStartByShape(s, strip);
      assert AllSelected(s, strip);
      assert AllSelected(s + w2, strip);
      TrimStartAllSelected(s + w2, strip);
    } else {
      TrimStartAppend(s, w2, strip);
      TrimEndSkipsPadding(t, w2, strip);
    }
  }

  /** Text that is empty or starts and ends with kept characters is left
      as it is. */
  lemma StripKeepsClean(s: string, strip: char -> bool)
    requires s == [] || (!strip(s[0]) && !strip(s[|s| - 1]))
    ensures StripBy(s, strip) == s
  {
  }

  /** Stripping a second time changes nothing. */
  lemma StripIdempotent(s: string, strip: char -> bool)
    ensures StripBy(StripBy(s, strip), strip) == StripBy(s, strip)
  {
    StripByShape(s, strip);
    StripKeepsClean(StripBy(s, strip), strip);
  }

  /** `Trim` ignores surrounding whitespace. */
  lemma TrimIgnoresPadding(w1: string, s: string, w2: string)
    requires AllSelected(w1, IsWhitespace) && AllSelected(w2, IsWhitespace)
    ensures Trim(w1 + s + w2) == Trim(s)
  {
    StripIgnoresPadding(w1, s, w2, IsWhitespace);
  }

  /** Slices of slices are slices. */
  lemma SliceTransitive(t: string, u: string, s: string, a: int, b: int)
    requires IsSliceAt(t, u, a) && IsSliceAt(u, s, b)
    ensures IsSliceAt(t, s, a + b)
  {
    forall i | 0 <= i < |t| ensures s[a + b + i] == t[i] {
      assert t[i] == u[a + i] == s[b + a + i];
    }
  }
}
