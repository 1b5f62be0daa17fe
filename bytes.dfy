/** Bytes, fixed-width text fields and the whitespace stripping applied when
    a text field is read back.  Text is modelled as its UTF-8 byte sequence;
    whitespace is the one-byte (ASCII) part of Python's `str.isspace`. */
module Bytes {

  newtype Byte = b: int | 0 <= b < 256

  /** The pad byte `bytes.ljust` uses by default. */
  const Space: Byte := 32

  /** Python's `str.isspace` on a one-byte character: TAB, LF, VT, FF, CR,
      the four separator controls 0x1c-0x1f, and SPACE. */
  predicate IsSpace(b: Byte) {
    9 <= b <= 13 || 28 <= b <= 32
  }

  function Spaces(n: nat): (r: seq<Byte>)
    ensures |r| == n
    ensures forall i :: 0 <= i < n ==> r[i] == Space
  {
    seq(n, _ => Space)
  }

  /** `s.ljust(w)` followed by truncation to exactly `w` bytes: what both
      `struct.pack` with a `ws` code and `ljust(w)[:w]` store for a text field. */
  function Fit(s: seq<Byte>, w: nat): (r: seq<Byte>)
    ensures |r| == w
    ensures forall i :: 0 <= i < w ==> r[i] == if i < |s| then s[i] else Space
  {
    if |s| >= w then s[..w] else s + Spaces(w - |s|)
  }

  /** A text that `strip()` leaves as it is: no whitespace at either end. */
  predicate Trimmed(s: seq<Byte>) {
    s == [] || (!IsSpace(s[0]) && !IsSpace(s[|s| - 1]))
  }

  /** `rstrip()`: the longest prefix that does not end in whitespace. */
  function StripRight(s: seq<Byte>): (r: seq<Byte>)
    ensures |r| <= |s|
  {
    if s != [] && IsSpace(s[|s| - 1]) then StripRight(s[..|s| - 1]) else s
  }

  /** `lstrip()`: the longest suffix that does not start with whitespace. */
  function StripLeft(s: seq<Byte>): (r: seq<Byte>)
    ensures |r| <= |s|
  {
    if s != [] && IsSpace(s[0]) then StripLeft(s[1..]) else s
  }

  /** `strip()`: whitespace removed from both ends. */
  function Strip(s: seq<Byte>): (r: seq<Byte>)
    ensures |r| <= |s|
  {
    StripLeft(StripRight(s))
  }

  /** `rstrip()` keeps a prefix, removes only whitespace, and leaves no
      whitespace at the end. */
  lemma {:induction false} StripRightSpec(s: seq<Byte>)
    ensures StripRight(s) == s[..|StripRight(s)|]
    ensures StripRight(s) == [] || !IsSpace(StripRight(s)[|StripRight(s)| - 1])
    ensures forall i :: |StripRight(s)| <= i < |s| ==> IsSpace(s[i])
  {
    if s != [] && IsSpace(s[|s| - 1]) {
      StripRightSpec(s[..|s| - 1]);
    }
  }

  /** `lstrip()` keeps a suffix, removes only whitespace, and leaves no
      whitespace at the start. */
  lemma {:induction false} StripLeftSpec(s: seq<Byte>)
    ensures StripLeft(s) == s[|s| - |StripLeft(s)|..]
    ensures StripLeft(s) == [] || !IsSpace(StripLeft(s)[0])
    ensures forall i :: 0 <= i < |s| - |StripLeft(s)| ==> IsSpace(s[i])
  {
    if s != [] && IsSpace(s[0]) {
      StripLeftSpec(s[1..]);
    }
  }

  /** `strip()` leaves no whitespace at either end. */
  lemma StripTrimmed(s: seq<Byte>)
    ensures Trimmed(Strip(s))
  {
    var t := StripRight(s);
    StripRightSpec(s);
    StripLeftSpec(t);
  }

  lemma {:induction false} StripRightPadding(s: seq<Byte>, k: nat)
    ensures StripRight(s + Spaces(k)) == StripRight(s)
  {
    if k > 0 {
      assert (s + Spaces(k))[..|s| + k - 1] == s + Spaces(k - 1);
      StripRightPadding(s, k - 1);
    } else {
      assert s + Spaces(0) == s;
    }
  }

  /** Stripping a field read back from its padded, fixed-width form gives the
      original text whenever it fits the width and has no surrounding
      whitespace. */
  lemma StripFit(s: seq<Byte>, w: nat)
    requires |s| <= w && Trimmed(s)
    ensures Strip(Fit(s, w)) == s
  {
    StripRightPadding(s, w - |s|);
    assert StripRight(s) == s;
  }

  /** A trimmed text is a fixed point of `strip()`, and only those are. */
  lemma StripIdempotent(s: seq<Byte>)
    ensures Strip(s) == s <==> Trimmed(s)
  {
    if Trimmed(s) {
      assert StripRight(s) == s;
    }
  }
}
