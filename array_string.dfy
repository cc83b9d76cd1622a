/**
  The fixed-capacity string of the `arrayvec` crate, `ArrayString<CAP>`, kept
  to the contract the truncating buffer uses: a capacity fixed when the buffer
  is made, the current length, `push_str` (which the caller must make fit)
  and `try_push` of one character (which fits whole or is refused). The
  storage is an array of `capacity` bytes of which the first `len` are text.
 */
module ArrayVec {
  import opened Utf8
  import opened RustCore

  /** `CapacityError<T>`: the element that did not fit, handed back. */
  datatype CapacityError<T> = CapacityError(element: T)

  class ArrayString {
    const capacity: nat
    const data: array<Byte>
    var len: nat

    /** The buffer never holds more than `capacity` bytes, and what it holds
        is always well-formed text. */
    ghost predicate Valid()
      reads this, data
    {
      data.Length == capacity && len <= capacity && WellFormed(data[..len])
    }

    /** `&self[..]`: the text written so far. */
    function Contents(): (s: seq<Byte>)
      reads this, data
      requires Valid()
      ensures |s| <= capacity && WellFormed(s)
    {
      data[..len]
    }

    /** `len()`: the number of bytes written so far. */
    function Len(): (n: nat)
      reads this, data
      requires Valid()
      ensures n == |Contents()| && n <= capacity
    {
      len
    }

    /** `ArrayString::<CAP>::new()`: an empty buffer of `capacity` bytes. */
    constructor (capacity: nat)
      ensures Valid() && fresh(data)
      ensures this.capacity == capacity && Contents() == []
    {
      this.capacity := capacity;
      data := new Byte[capacity];
      len := 0;
    }

    /** `push_str(s)`: appends all of `s`; arrayvec panics when it does not
        fit, so its callers make sure that it does. */
    method PushStr(s: seq<Byte>)
      requires Valid() && WellFormed(s) && len + |s| <= capacity
      modifies this, data
      ensures Valid()
      ensures Contents() == old(Contents()) + s
    {
      ghost var before := data[..len];
      for i := 0 to |s|
        invariant len == |before|
        invariant data[..len + i] == before + s[..i]
      {
        data[len + i] := s[i];
      }
      assert s[..|s|] == s;
      len := len + |s|;
      ConcatWellFormed(before, s);
    }

    /** `try_push(c)`, with the character `c` given as its UTF-8 encoding:
        appends the whole character when it fits, and otherwise leaves the
        buffer as it was and hands the character back. */
    method TryPush(c: seq<Byte>) returns (r: Result<(), CapacityError<seq<Byte>>>)
      requires Valid() && EncodesOneChar(c)
      modifies this, data
      ensures Valid()
      ensures r.Ok? <==> old(len) + |c| <= capacity
      ensures r.Err? ==> r.error == CapacityError(c)
      ensures Contents() == if r.Ok? then old(Contents()) + c else old(Contents())
    {
      if len + |c| <= capacity {
        OneCharWellFormed(c);
        PushStr(c);
        r := Ok(());
      } else {
        r := Err(CapacityError(c));
      }
    }
  }
}
