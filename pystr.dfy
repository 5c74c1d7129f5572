/** The few Python `str` methods the modelled code calls: `lower`, `isspace`
    and `strip` (with no argument).
 */
module PyStr {

  /** `str.lower` on one character. Only the ASCII capitals are mapped:
      capitals outside ASCII are left unchanged, a simplification of Python's
      full Unicode lower-casing. */
  function LowerChar(c: char): char {
    if 'A' <= c <= 'Z' then (c as int + 32) as char else c
  }

  /** `str.lower` */
  function Lower(s: string): (r: string)
    ensures |r| == |s|
  {
    seq(|s|, i requires 0 <= i < |s| => LowerChar(s[i]))
  }

  /** No ASCII capital letter occurs in `s`. */
  predicate IsLower(s: string) {
    forall i :: 0 <= i < |s| ==> !('A' <= s[i] <= 'Z')
  }

  /** `lower` works character by character: a string whose characters lower
      to those of `t` lowers to `t`. */
  lemma LowerPointwise(s: string, t: string)
    requires |s| == |t| && forall i :: 0 <= i < |s| ==> LowerChar(s[i]) == t[i]
    ensures Lower(s) == t
  {
  }

  /** The result of `lower` holds no capital letter. */
  lemma LowerIsLower(s: string)
    ensures IsLower(Lower(s))
  {
  }

  /** Lower-casing twice is lower-casing once. */
  lemma LowerIdempotent(s: string)
    ensures Lower(Lower(s)) == Lower(s)
  {
  }

  /** `str.isspace` on one character: exactly the code points Python counts as
      white space (ASCII 9-13 and 28-32, U+0085, U+00A0, U+1680, U+2000-U+200A,
      U+2028, U+2029, U+202F, U+205F, U+3000). */
  predicate IsSpaceChar(c: char) {
    var n := c as int;
    || 9 <= n <= 13
    || 28 <= n <= 32
    || n == 0x85 || n == 0xA0 || n == 0x1680
    || 0x2000 <= n <= 0x200A
    || n == 0x2028 || n == 0x2029 || n == 0x202F || n == 0x205F || n == 0x3000
  }

  /** `str.isspace`: true of a non-empty string made only of white space. */
  predicate IsSpace(s: string) {
    |s| > 0 && forall i :: 0 <= i < |s| ==> IsSpaceChar(s[i])
  }

  function LStrip(s: string): string {
    if s != [] && IsSpaceChar(s[0]) then LStrip(s[1..]) else s
  }

  function RStrip(s: string): string {
    if s != [] && IsSpaceChar(s[|s| - 1]) then RStrip(s[..|s| - 1]) else s
  }

  /** `str.strip()`: drop white space at both ends. */
  function Strip(s: string): string {
    RStrip(LStrip(s))
  }

  lemma {:induction false} LStripSpec(s: string)
    ensures LStrip(s) == [] <==> (s == [] || IsSpace(s))
    ensures LStrip(s) != [] ==> !IsSpaceChar(LStrip(s)[0])
    ensures |LStrip(s)| <= |s| && LStrip(s) == s[|s| - |LStrip(s)|..]
    ensures forall k :: 0 <= k < |s| - |LStrip(s)| ==> IsSpaceChar(s[k])
  {
    if s != [] && IsSpaceChar(s[0]) {
      LStripSpec(s[1..]);
      forall k | 1 <= k < |s| - |LStrip(s)| ensures IsSpaceChar(s[k]) {
        assert s[k] == s[1..][k - 1];
      }
      if IsSpace(s[1..]) {
        forall i | 0 <= i < |s| ensures IsSpaceChar(s[i]) {
          if i > 0 { assert s[i] == s[1..][i - 1]; }
        }
      }
      if IsSpace(s) && s[1..] != [] {
        forall i | 0 <= i < |s[1..]| ensures IsSpaceChar(s[1..][i]) {
          assert s[1..][i] == s[i + 1];
        }
      }
    }
  }

  lemma {:induction false} RStripSpec(s: string)
    ensures RStrip(s) == [] <==> (s == [] || IsSpace(s))
    ensures RStrip(s) != [] ==> !IsSpaceChar(RStrip(s)[|RStrip(s)| - 1])
    ensures |RStrip(s)| <= |s| && RStrip(s) == s[..|RStrip(s)|]
    ensures forall k :: |RStrip(s)| <= k < |s| ==> IsSpaceChar(s[k])
  {
    if s != [] && IsSpaceChar(s[|s| - 1]) {
      var t := s[..|s| - 1];
      RStripSpec(t);
      forall k | |RStrip(s)| <= k < |s| - 1 ensures IsSpaceChar(s[k]) {
        assert s[k] == t[k];
      }
      if IsSpace(t) {
        forall i | 0 <= i < |s| ensures IsSpaceChar(s[i]) {
          if i < |s| - 1 { assert s[i] == t[i]; }
        }
      }
      if IsSpace(s) && t != [] {
        forall i | 0 <= i < |t| ensures IsSpaceChar(t[i]) {
          assert t[i] == s[i];
        }
      }
    }
  }

  /** `strip()` is `s` with white space removed at both ends: a slice of `s`
      whose dropped prefix and suffix are white space. It is empty exactly
      when `not s or s.isspace()`, and otherwise starts and ends with a
      character that is not white space. */
  lemma StripSpec(s: string)
    ensures exists i, j ::
              0 <= i <= j <= |s| && Strip(s) == s[i..j] &&
              (forall k :: 0 <= k < i ==> IsSpaceChar(s[k])) &&
              (forall k :: j <= k < |s| ==> IsSpaceChar(s[k]))
    ensures Strip(s) == [] <==> (s == [] || IsSpace(s))
    ensures Strip(s) != [] ==> !IsSpaceChar(Strip(s)[0]) && !IsSpaceChar(Strip(s)[|Strip(s)| - 1])
  {
    var l := LStrip(s);
    LStripSpec(s);
    RStripSpec(l);
    StripEnds(s);
    var i := |s| - |l|;
    var j := i + |RStrip(l)|;
    assert Strip(s) == s[i..j];
    forall k | j <= k < |s| ensures IsSpaceChar(s[k]) {
      assert s[k] == l[k - i];
    }
  }

  /** The ends of `strip()`: the part of `StripSpec` its callers need. */
  lemma StripEnds(s: string)
    ensures Strip(s) == [] <==> (s == [] || IsSpace(s))
    ensures Strip(s) != [] ==> !IsSpaceChar(Strip(s)[0]) && !IsSpaceChar(Strip(s)[|Strip(s)| - 1])
  {
    var l := LStrip(s);
    LStripSpec(s);
    RStripSpec(l);
    if RStrip(l) != [] {
      assert RStrip(l)[0] == l[0];
    }
  }

  /** A string with no white space at either end is its own `strip()`. */
  lemma StripUnpadded(s: string)
    requires s != [] ==> !IsSpaceChar(s[0]) && !IsSpaceChar(s[|s| - 1])
    ensures Strip(s) == s
  {
  }
}
