/**
  `TruncatingArrayString<CAP>`: a fixed-capacity text buffer whose string
  append never fails hard. It writes as much of the input as fits, splits
  only between two characters, and hands the unwritten rest back inside the
  error value.
 */
module Truncating {
  import opened Utf8
  import opened RustCore
  import opened ArrayVec

  /** `is_utf8_char_boundary(b)`: whether `b` can start a character, decided
      by reading the byte as a signed `i8`. */
  function IsUtf8CharBoundary(b: Byte): (r: bool)
    ensures r <==> b < 0x80 || b >= 0xC0
    ensures r <==> !IsContinuation(b)
  {
    AsI8(b) >= -0x40
  }

  /** On well-formed text, the prefix test `IsCharBoundary` agrees with the
      byte test that Rust's `str::is_char_boundary` applies. */
  lemma CharBoundaryMatchesByteTest(s: seq<Byte>, k: nat)
    requires WellFormed(s) && k <= |s|
    ensures IsCharBoundary(s, k) <==> (k == 0 || k == |s| || IsUtf8CharBoundary(s[k]))
  {
    SplitAtBoundary(s, k);
    if k == 0 {
      assert s[..0] == [];
    }
  }

  /**
    `floor_char_boundary(s, index)`: the length of `s` when `index` is past
    its end; otherwise the last offset in the four-byte window
    `s[index - 3..index + 1]` whose byte starts a character, found by
    searching from the back. The source leaves the search unchecked; here the
    well-formedness of `s` (what a Rust `&str` guarantees) proves that the
    window holds such a byte.
   */
  function FloorCharBoundary(s: seq<Byte>, index: nat): (r: nat)
    requires WellFormed(s)
    ensures r <= |s|
    ensures index >= |s| ==> r == |s|
    ensures index < |s| ==> SaturatingSub(index, 3) <= r <= index
    ensures index < |s| ==> IsUtf8CharBoundary(s[r])
    ensures index < |s| ==> forall k :: r < k <= index ==> !IsUtf8CharBoundary(s[k])
  {
    if index >= |s| then
      |s|
    else
      var lowerBound := SaturatingSub(index, 3);
      var window := s[lowerBound..index + 1];
      assert exists j :: 0 <= j < |window| && IsUtf8CharBoundary(window[j]) by {
        StartWithinThreeBytes(s, index);
        var k :| index - 3 <= k <= index && 0 <= k && !IsContinuation(s[k]);
        assert window[k - lowerBound] == s[k];
      }
      var newIndex := RPosition(window, IsUtf8CharBoundary);
      var r := lowerBound + newIndex.value;
      assert window[newIndex.value] == s[r];
      assert forall k :: r < k <= index ==> !IsUtf8CharBoundary(s[k]) by {
        forall k | r < k <= index ensures !IsUtf8CharBoundary(s[k]) {
          assert window[k - lowerBound] == s[k];
        }
      }
      r
  }

  /** On well-formed text, the text before and after the result of
      `floor_char_boundary` is well-formed: the split never cuts a character. */
  lemma FloorSplitsCleanly(s: seq<Byte>, index: nat)
    requires WellFormed(s)
    ensures IsCharBoundary(s, FloorCharBoundary(s, index))
    ensures WellFormed(s[FloorCharBoundary(s, index)..])
  {
    SplitAtBoundary(s, FloorCharBoundary(s, index));
  }

  /** On well-formed text, no offset between the result of
      `floor_char_boundary` and `index` is a character boundary: the result
      is the largest boundary at or below `index`, although only four bytes
      were searched. */
  lemma FloorIsLargestBoundary(s: seq<Byte>, index: nat)
    requires WellFormed(s)
    ensures forall k :: FloorCharBoundary(s, index) < k <= index ==> !IsCharBoundary(s, k)
  {
    forall k | FloorCharBoundary(s, index) < k <= index && k <= |s|
      ensures !IsCharBoundary(s, k)
    {
      SplitAtBoundary(s, k);
    }
  }

  /** Concatenation is associative; stated apart so that the append proof
      below sees this one fact and nothing else. */
  lemma AppendAssoc(a: seq<Byte>, b: seq<Byte>, c: seq<Byte>)
    ensures (a + b) + c == a + (b + c)
  {
  }

  class TruncatingArrayString {
    /** The wrapped `ArrayString<CAP>` (the struct's public field `.0`). */
    const inner: ArrayString

    ghost predicate Valid()
      reads this, inner, inner.data
    {
      inner.Valid()
    }

    /** `capacity() - len()`: how many more bytes the buffer can take. */
    function RemainingCapacity(): (n: nat)
      reads this, inner, inner.data
      requires Valid()
      ensures n + |inner.Contents()| == inner.capacity
    {
      inner.capacity - inner.Len()
    }

    /** `new()`: an empty buffer of `capacity` bytes. */
    constructor (capacity: nat)
      ensures Valid() && fresh(inner) && fresh(inner.data)
      ensures inner.capacity == capacity && inner.Contents() == []
    {
      inner := new ArrayString(capacity);
    }

    /**
      `try_push_str_truncate(s)`: appends all of `s` when it is strictly
      shorter than the remaining capacity and returns `Ok`. Otherwise it
      appends the longest prefix of `s` that fits and ends between two
      characters, and returns `Err` carrying the rest of `s` -- also when that
      rest is empty because `s` fills the buffer exactly.
     */
    method TryPushStrTruncate(s: seq<Byte>) returns (r: Result<(), CapacityError<seq<Byte>>>)
      requires Valid() && WellFormed(s)
      modifies inner, inner.data
      ensures Valid()
      ensures r.Ok? <==> |s| < old(RemainingCapacity())
      ensures r.Ok? ==> r == Ok(())
      ensures inner.Contents() == old(inner.Contents()) + s[..FloorCharBoundary(s, old(RemainingCapacity()))]
      ensures r.Err? ==> r.error.element == s[FloorCharBoundary(s, old(RemainingCapacity()))..]
      ensures r.Ok? ==> inner.Contents() == old(inner.Contents()) + s
      ensures r.Err? ==> inner.Contents() + r.error.element == old(inner.Contents()) + s
      ensures r.Err? ==> WellFormed(r.error.element)
      ensures r.Err? && r.error.element != [] ==>
                |inner.Contents()| + CharWidth(r.error.element[0]) > inner.capacity
      ensures |s| == old(RemainingCapacity()) ==>
                r == Err(CapacityError([])) && inner.Contents() == old(inner.Contents()) + s
      ensures old(RemainingCapacity()) == 0 ==>
                r == Err(CapacityError(s)) && inner.Contents() == old(inner.Contents())
    {
      var remainingCapacity := inner.capacity - inner.Len();
      ghost var before := inner.Contents();
      ghost var cut := FloorCharBoundary(s, remainingCapacity);
      assert WellFormed(s[..cut]) && WellFormed(s[cut..]) by {
        FloorSplitsCleanly(s, remainingCapacity);
      }
      assert cut < |s| ==> remainingCapacity < cut + CharWidth(s[cut]) by {
        if cut < |s| {
          CharAtLastStartReachesPast(s, remainingCapacity, cut);
        }
      }
      if |s| < remainingCapacity {
        inner.PushStr(s);
        assert s[..cut] == s;
        r := Ok(());
      } else {
        var mid := FloorCharBoundary(s, remainingCapacity);
        var fits, rest := s[..mid], s[mid..];
        assert fits + rest == s;
        inner.PushStr(fits);
        ghost var after := inner.Contents();
        assert after == before + fits;
        AppendAssoc(before, fits, rest);
        r := Err(CapacityError(rest));
      }
    }

    /** `fmt::Write::write_str(s)`: the truncating append, with the rest of
        `s` dropped from the error. */
    method WriteStr(s: seq<Byte>) returns (r: Result<(), FmtError>)
      requires Valid() && WellFormed(s)
      modifies inner, inner.data
      ensures Valid()
      ensures r == if |s| < old(RemainingCapacity()) then Ok(()) else Err(FmtError)
      ensures inner.Contents() == old(inner.Contents()) + s[..FloorCharBoundary(s, old(RemainingCapacity()))]
    {
      var pushed := TryPushStrTruncate(s);
      r := if pushed.Ok? then Ok(()) else Err(FmtError);
    }

    /** `fmt::Write::write_char(c)`, with `c` given as its UTF-8 encoding:
        the character is appended whole when it fits, and otherwise the
        buffer is left as it was. */
    method WriteChar(c: seq<Byte>) returns (r: Result<(), FmtError>)
      requires Valid() && EncodesOneChar(c)
      modifies inner, inner.data
      ensures Valid()
      ensures r == if |c| <= old(RemainingCapacity()) then Ok(()) else Err(FmtError)
      ensures inner.Contents() == if r.Ok? then old(inner.Contents()) + c else old(inner.Contents())
    {
      var pushed := inner.TryPush(c);
      r := if pushed.Ok? then Ok(()) else Err(FmtError);
    }
  }
}
