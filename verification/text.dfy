/** Character classes, the two text normalisations the matcher applies before
    substring search, and substring occurrence.

    Case mapping is modelled on ASCII only: 'A'..'Z' are the upper-case
    characters and lower-casing maps them to 'a'..'z'; every other character
    is treated as caseless. */
module Text {

  predicate IsUpper(c: char) {
    'A' <= c <= 'Z'
  }

  predicate IsAsciiChar(c: char) {
    c as int < 0x80
  }

  function LowerChar(c: char): (r: char)
    ensures !IsUpper(r)
    ensures IsAsciiChar(r) <==> IsAsciiChar(c)
    ensures IsUpper(c) ==> r as int == c as int + 32
    ensures !IsUpper(c) ==> r == c
  {
    if IsUpper(c) then (c as int + 32) as char else c
  }

  /** `str.lower()`. */
  function Lower(s: string): (r: string)
    ensures |r| == |s|
    ensures forall k :: 0 <= k < |s| ==> r[k] == LowerChar(s[k])
  {
    seq(|s|, k requires 0 <= k < |s| => LowerChar(s[k]))
  }

  predicate NoUpper(s: string) {
    forall k :: 0 <= k < |s| ==> !IsUpper(s[k])
  }

  /** The strings that lower-casing leaves alone are exactly those without an upper-case character. */
  lemma LowerFixedPoints(s: string)
    ensures Lower(s) == s <==> NoUpper(s)
  {
    if NoUpper(s) {
      assert forall k :: 0 <= k < |s| ==> Lower(s)[k] == s[k];
    }
  }

  lemma LowerIdempotent(s: string)
    ensures NoUpper(Lower(s))
    ensures Lower(Lower(s)) == Lower(s)
  {
    LowerFixedPoints(Lower(s));
  }

  /** `s.isascii()`, the check that `_isascii` makes from Python 3.7 on. */
  predicate IsAscii(s: string) {
    forall k :: 0 <= k < |s| ==> IsAsciiChar(s[k])
  }

  /** The check that `_isascii` falls back to before Python 3.7: no character has bit 7 of its code set. */
  predicate IsAsciiFallback(s: string) {
    forall k :: 0 <= k < |s| ==> ((s[k] as int) as bv32) & 0x80 == 0
  }

  /** Every ASCII string passes the fallback check. */
  lemma AsciiPassesFallback(s: string)
    requires IsAscii(s)
    ensures IsAsciiFallback(s)
  {
    forall k | 0 <= k < |s|
      ensures ((s[k] as int) as bv32) & 0x80 == 0
    {
      BitSevenClearBelow128(s[k] as int);
    }
  }

  lemma BitSevenClearBelow128(n: int)
    requires 0 <= n < 0x80
    ensures (n as bv32) & 0x80 == 0
  {
    assert (n as bv32) < 0x80;
    assert (n as bv8) as bv32 == n as bv32;
  }

  /** The fallback check also passes U+0100, whose code is 256: bit 7 is clear, yet the character is not ASCII. */
  lemma FallbackAcceptsNonAscii()
    ensures IsAsciiFallback("\U{100}") && !IsAscii("\U{100}")
  {
    var s := "\U{100}";
    assert s[0] as int == 0x100;
    assert ((0x100 as int) as bv32) & 0x80 == 0;
  }

  /** Drops every non-ASCII character, as `.encode("ascii", errors="ignore").decode()` does. */
  function DropNonAscii(s: string): (r: string)
    ensures IsAscii(r)
    ensures |r| <= |s|
    ensures IsAscii(s) ==> r == s
    ensures forall k :: 0 <= k < |r| ==> r[k] in s
  {
    if s == [] then []
    else (if IsAsciiChar(s[0]) then [s[0]] else []) + DropNonAscii(s[1..])
  }

  /** `to_lowercase_ascii`: lower-case, then drop what is not ASCII. */
  function ToLowercaseAscii(s: string): (r: string)
    ensures IsAscii(r) && NoUpper(r)
    ensures |r| <= |s|
  {
    var lowered := Lower(s);
    var r := DropNonAscii(lowered);
    assert forall k :: 0 <= k < |r| ==> !IsUpper(r[k]) by {
      forall k | 0 <= k < |r| ensures !IsUpper(r[k]) {
        var j :| 0 <= j < |lowered| && lowered[j] == r[k];
      }
    }
    r
  }

  /** On ASCII input the normalisation is plain per-character lower-casing and keeps the length. */
  lemma ToLowercaseAsciiOnAscii(s: string)
    requires IsAscii(s)
    ensures ToLowercaseAscii(s) == Lower(s)
    ensures |ToLowercaseAscii(s)| == |s|
  {
    assert IsAscii(Lower(s));
  }

  /** Normalising twice is normalising once. */
  lemma ToLowercaseAsciiIdempotent(s: string)
    ensures ToLowercaseAscii(ToLowercaseAscii(s)) == ToLowercaseAscii(s)
  {
    var r := ToLowercaseAscii(s);
    ToLowercaseAsciiOnAscii(r);
    LowerFixedPoints(r);
  }

  /** A string survives the normalisation unchanged exactly when it is ASCII with no upper-case letter. */
  lemma ToLowercaseAsciiFixedPoints(s: string)
    ensures ToLowercaseAscii(s) == s <==> IsAscii(s) && NoUpper(s)
  {
    if IsAscii(s) && NoUpper(s) {
      ToLowercaseAsciiOnAscii(s);
      LowerFixedPoints(s);
    }
  }

  /** No character is dropped exactly when the input is ASCII. */
  lemma {:induction false} DropNonAsciiKeepsLength(s: string)
    ensures |DropNonAscii(s)| == |s| <==> IsAscii(s)
  {
    if s != [] {
      DropNonAsciiKeepsLength(s[1..]);
      assert |DropNonAscii(s[1..])| <= |s[1..]|;
      if IsAscii(s) {
        assert IsAscii(s[1..]) by {
          forall k | 0 <= k < |s[1..]| ensures IsAsciiChar(s[1..][k]) {
            assert s[1..][k] == s[k + 1];
          }
        }
      } else if IsAsciiChar(s[0]) {
        assert !IsAscii(s[1..]) by {
          var k :| 0 <= k < |s| && !IsAsciiChar(s[k]);
          assert s[1..][k - 1] == s[k];
        }
      }
    }
  }

  /** The normalisation keeps the length exactly when the input is ASCII. */
  lemma ToLowercaseAsciiKeepsLength(s: string)
    ensures |ToLowercaseAscii(s)| == |s| <==> IsAscii(s)
  {
    DropNonAsciiKeepsLength(Lower(s));
    assert IsAscii(Lower(s)) <==> IsAscii(s);
  }

  /** `w in t` for Python strings: `w` occurs in `t` at some position. */
  predicate IsSubstring(w: string, t: string)
    decreases |t|
  {
    |w| <= |t| && (t[..|w|] == w || IsSubstring(w, t[1..]))
  }

  /** `w` occurs in `t` starting at position `i`. */
  predicate OccursAt(w: string, t: string, i: int) {
    0 <= i <= |t| - |w| && t[i..i + |w|] == w
  }

  /** The recursive test agrees with "some slice of `t` equals `w`". */
  lemma {:induction false} IsSubstringAt(w: string, t: string)
    ensures IsSubstring(w, t) <==> exists i :: OccursAt(w, t, i)
    decreases |t|
  {
    if |w| <= |t| {
      if t[..|w|] == w {
        assert OccursAt(w, t, 0);
      } else {
        IsSubstringAt(w, t[1..]);
        if exists i :: OccursAt(w, t, i) {
          var i :| OccursAt(w, t, i);
          assert i > 0;
          assert OccursAt(w, t[1..], i - 1) by {
            assert t[1..][i - 1..i - 1 + |w|] == t[i..i + |w|];
          }
        }
        if IsSubstring(w, t[1..]) {
          var i :| OccursAt(w, t[1..], i);
          assert OccursAt(w, t, i + 1) by {
            assert t[1..][i..i + |w|] == t[i + 1..i + 1 + |w|];
          }
        }
      }
    }
  }

  /** Every character of an occurring string is a character of the text. */
  lemma SubstringCharsOccur(w: string, t: string)
    requires IsSubstring(w, t)
    ensures forall k :: 0 <= k < |w| ==> w[k] in t
  {
    IsSubstringAt(w, t);
    var i :| OccursAt(w, t, i);
    forall k | 0 <= k < |w| ensures w[k] in t {
      assert w[k] == t[i..i + |w|][k] == t[i + k];
    }
  }

  /** Every string occurs in itself. */
  lemma SubstringOfItself(w: string)
    ensures IsSubstring(w, w)
  {
    assert w[..|w|] == w;
  }
}
