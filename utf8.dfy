/**
  The UTF-8 byte structure of RFC 3629, section 3: every character is encoded
  as one lead byte (0xxxxxxx, 110xxxxx, 1110xxxx or 11110xxx) followed by as
  many continuation bytes (10xxxxxx) as the lead byte announces, so that a
  character takes one to four bytes.

  Only this lead/continuation structure is modelled. The stricter rules of
  section 4 of RFC 3629 (no overlong forms, no surrogates, nothing above
  U+10FFFF) describe a subset of these sequences, so every property proved
  here for well-formed sequences holds of valid UTF-8 as well.
 */
module Utf8 {

  /** One byte of encoded text. */
  newtype Byte = b: int | 0 <= b < 0x100

  /** A continuation byte, 10xxxxxx: it never starts a character. */
  predicate IsContinuation(b: Byte) {
    0x80 <= b < 0xC0
  }

  /** The number of bytes of the character that `lead` starts, or 0 when
      `lead` cannot start a character (a continuation byte, or 11111xxx). */
  function CharWidth(lead: Byte): (w: nat)
    ensures w <= 4
    ensures w == 0 <==> IsContinuation(lead) || lead >= 0xF8
    ensures w == 1 <==> lead < 0x80
  {
    if lead < 0x80 then 1
    else if lead < 0xC0 then 0
    else if lead < 0xE0 then 2
    else if lead < 0xF0 then 3
    else if lead < 0xF8 then 4
    else 0
  }

  /** `c` is the encoding of exactly one character. */
  predicate EncodesOneChar(c: seq<Byte>) {
    |c| > 0 && CharWidth(c[0]) == |c| &&
    forall j :: 1 <= j < |c| ==> IsContinuation(c[j])
  }

  /** `s` is a concatenation of encoded characters. */
  predicate WellFormed(s: seq<Byte>)
    decreases |s|
  {
    s == [] ||
    (var w := CharWidth(s[0]);
     0 < w <= |s| && EncodesOneChar(s[..w]) && WellFormed(s[w..]))
  }

  /** Offset `k` of `s` does not cut a character: the text before it is
      well-formed (Rust's `str::is_char_boundary`). */
  predicate IsCharBoundary(s: seq<Byte>, k: nat) {
    k <= |s| && WellFormed(s[..k])
  }

  /** A single encoded character is a well-formed sequence on its own. */
  lemma OneCharWellFormed(c: seq<Byte>)
    requires EncodesOneChar(c)
    ensures WellFormed(c)
  {
    assert c[..|c|] == c;
    assert c[|c|..] == [];
  }

  /** Well-formed sequences are closed under concatenation. */
  lemma {:induction false} ConcatWellFormed(a: seq<Byte>, b: seq<Byte>)
    requires WellFormed(a) && WellFormed(b)
    ensures WellFormed(a + b)
    decreases |a|
  {
    if a == [] {
      assert a + b == b;
    } else {
      var w := CharWidth(a[0]);
      ConcatWellFormed(a[w..], b);
      assert (a + b)[..w] == a[..w];
      assert (a + b)[w..] == a[w..] + b;
    }
  }

  /**
    In a well-formed sequence, an offset splits it into two well-formed
    halves exactly when it is not inside a character: when it is the end,
    or when the byte there is not a continuation byte.
   */
  lemma {:induction false} SplitAtBoundary(s: seq<Byte>, k: nat)
    requires WellFormed(s) && k <= |s|
    ensures WellFormed(s[..k]) <==> (k == |s| || !IsContinuation(s[k]))
    ensures WellFormed(s[..k]) ==> WellFormed(s[k..])
    decreases |s|
  {
    if k == 0 {
      assert s[..k] == [] && s[k..] == s;
    } else if k == |s| {
      assert s[..k] == s && s[k..] == [];
    } else {
      var w := CharWidth(s[0]);
      var t := s[w..];
      if k < w {
        assert s[..w][k] == s[k];
        assert s[..k][0] == s[0];
      } else {
        SplitAtBoundary(t, k - w);
        assert s[..k][..w] == s[..w];
        assert s[..k][w..] == t[..k - w];
        assert s[k..] == t[k - w..];
        assert t[k - w] == s[k];
      }
    }
  }

  /**
    Because a character takes at most four bytes, any position of a
    well-formed sequence has a byte that starts a character at most three
    bytes before it.
   */
  lemma {:induction false} StartWithinThreeBytes(s: seq<Byte>, i: nat)
    requires WellFormed(s) && i < |s|
    ensures exists k :: i - 3 <= k <= i && 0 <= k && !IsContinuation(s[k])
    decreases |s|
  {
    var w := CharWidth(s[0]);
    if i < w {
      assert !IsContinuation(s[0]);
    } else {
      var t := s[w..];
      StartWithinThreeBytes(t, i - w);
      var k :| i - w - 3 <= k <= i - w && 0 <= k && !IsContinuation(t[k]);
      assert t[k] == s[k + w];
    }
  }

  /** The character that starts at a boundary of a well-formed sequence ends
      inside it, and the prefix up to its end is well-formed again. */
  lemma NextCharEnds(s: seq<Byte>, r: nat)
    requires r < |s| && WellFormed(s[..r]) && WellFormed(s[r..])
    ensures r + CharWidth(s[r]) <= |s|
    ensures WellFormed(s[..r + CharWidth(s[r])])
  {
    var t := s[r..];
    var w := CharWidth(t[0]);
    OneCharWellFormed(t[..w]);
    ConcatWellFormed(s[..r], t[..w]);
    assert s[..r] + t[..w] == s[..r + w];
  }

  /**
    When byte `r` starts a character and every byte after it up to `index`
    is a continuation byte, the character at `r` reaches past `index`.
   */
  lemma CharAtLastStartReachesPast(s: seq<Byte>, index: nat, r: nat)
    requires WellFormed(s) && r <= index < |s| && !IsContinuation(s[r])
    requires forall k :: r < k <= index ==> IsContinuation(s[k])
    ensures index < r + CharWidth(s[r])
  {
    SplitAtBoundary(s, r);
    NextCharEnds(s, r);
    var next := r + CharWidth(s[r]);
    SplitAtBoundary(s, next);
  }

  /** Seven-bit ASCII text is well-formed: each byte is a character. */
  lemma {:induction false} AsciiWellFormed(s: seq<Byte>)
    requires forall i :: 0 <= i < |s| ==> s[i] < 0x80
    ensures WellFormed(s)
    decreases |s|
  {
    if s != [] {
      AsciiWellFormed(s[1..]);
    }
  }
}
