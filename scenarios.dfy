/**
  The crate's two unit tests, replayed on the model with a buffer of five
  bytes, and the two edge cases of the strict comparison: input that fills
  the buffer exactly, and input offered to a full buffer. `write!(buf, "{}", x)`
  hands `x` once to `write_str`, so the tests call `WriteStr` directly.
  Text is given as its UTF-8 bytes: "1" is 0x31, and "α", "β", "γ" are
  0xCE 0xB1, 0xCE 0xB2, 0xCE 0xB3.
 */
module Scenarios {
  import opened Utf8
  import opened RustCore
  import opened ArrayVec
  import opened Truncating

  /** `it_truncates`: "12" fits; "3456789" is cut after "345". */
  method ItTruncates() returns (first: Result<(), FmtError>, second: Result<(), FmtError>, contents: seq<Byte>)
    ensures first == Ok(())
    ensures second == Err(FmtError)
    ensures contents == [0x31, 0x32, 0x33, 0x34, 0x35]
  {
    var buf := new TruncatingArrayString(5);
    AsciiWellFormed([0x31, 0x32]);
    first := buf.WriteStr([0x31, 0x32]);
    var s: seq<Byte> := [0x33, 0x34, 0x35, 0x36, 0x37, 0x38, 0x39];
    AsciiWellFormed(s);
    AsciiWellFormed(s[..3]);
    assert IsCharBoundary(s, 3);
    second := buf.WriteStr(s);
    contents := buf.inner.Contents();
  }

  /** `it_truncates_at_char_boundary`: "α" fits; of "βγ" only "β" does, and
      no byte of "γ" is written. */
  method ItTruncatesAtCharBoundary() returns (first: Result<(), FmtError>, second: Result<(), FmtError>, contents: seq<Byte>)
    ensures first == Ok(())
    ensures second == Err(FmtError)
    ensures contents == [0xCE, 0xB1, 0xCE, 0xB2]
  {
    var buf := new TruncatingArrayString(5);
    OneCharWellFormed([0xCE, 0xB1]);
    first := buf.WriteStr([0xCE, 0xB1]);
    var s: seq<Byte> := [0xCE, 0xB2, 0xCE, 0xB3];
    OneCharWellFormed(s[..2]);
    OneCharWellFormed(s[2..]);
    ConcatWellFormed(s[..2], s[2..]);
    assert s[..2] + s[2..] == s;
    assert IsCharBoundary(s, 2);
    second := buf.WriteStr(s);
    contents := buf.inner.Contents();
  }

  /** The remainder of the first test's second append is "6789". */
  method AsciiRemainder() returns (rest: Result<(), CapacityError<seq<Byte>>>, contents: seq<Byte>)
    ensures rest == Err(CapacityError([0x36, 0x37, 0x38, 0x39]))
    ensures contents == [0x31, 0x32, 0x33, 0x34, 0x35]
  {
    var buf := new TruncatingArrayString(5);
    var s: seq<Byte> := [0x31, 0x32, 0x33, 0x34, 0x35, 0x36, 0x37, 0x38, 0x39];
    AsciiWellFormed(s);
    AsciiWellFormed(s[..5]);
    assert IsCharBoundary(s, 5);
    rest := buf.TryPushStrTruncate(s);
    contents := buf.inner.Contents();
  }

  /** The remainder of the second test's second append is "γ", whole. */
  method GreekRemainder() returns (rest: Result<(), CapacityError<seq<Byte>>>, contents: seq<Byte>)
    ensures rest == Err(CapacityError([0xCE, 0xB3]))
    ensures contents == [0xCE, 0xB1, 0xCE, 0xB2]
  {
    var buf := new TruncatingArrayString(5);
    var alpha: seq<Byte> := [0xCE, 0xB1];
    OneCharWellFormed(alpha);
    var _ := buf.TryPushStrTruncate(alpha);
    var t: seq<Byte> := [0xCE, 0xB2, 0xCE, 0xB3];
    OneCharWellFormed(t[..2]);
    OneCharWellFormed(t[2..]);
    ConcatWellFormed(t[..2], t[2..]);
    assert t[..2] + t[2..] == t;
    assert IsCharBoundary(t, 2);
    rest := buf.TryPushStrTruncate(t);
    contents := buf.inner.Contents();
  }

  /** Input that fills the buffer exactly is written whole, yet reported as
      `Err` with an empty remainder; after that, any input is handed back
      whole, and even the empty string is reported as `Err`. */
  method ExactFillReportsErr() returns (fill: Result<(), CapacityError<seq<Byte>>>, more: Result<(), CapacityError<seq<Byte>>>, empty: Result<(), CapacityError<seq<Byte>>>, contents: seq<Byte>)
    ensures fill == Err(CapacityError([]))
    ensures more == Err(CapacityError([0x36]))
    ensures empty == Err(CapacityError([]))
    ensures contents == [0x31, 0x32, 0x33, 0x34, 0x35]
  {
    var buf := new TruncatingArrayString(5);
    var s: seq<Byte> := [0x31, 0x32, 0x33, 0x34, 0x35];
    AsciiWellFormed(s);
    fill := buf.TryPushStrTruncate(s);
    AsciiWellFormed([0x36]);
    more := buf.TryPushStrTruncate([0x36]);
    empty := buf.TryPushStrTruncate([]);
    contents := buf.inner.Contents();
  }
}
