/**
  The few pieces of Rust's core library that the truncating buffer relies on:
  `Option` and `Result`, the payload-free `fmt::Error`, the cast of a `u8` to
  an `i8`, `usize::saturating_sub` and `Iterator::rposition` over a slice.
 */
module RustCore {
  import opened Utf8

  datatype Option<T> = None | Some(value: T)

  datatype Result<T, E> = Ok(value: T) | Err(error: E)

  /** `fmt::Error`: a write failure that carries nothing. */
  datatype FmtError = FmtError

  /** `b as i8`: the two's-complement reading of the byte. */
  function AsI8(b: Byte): (v: int)
    ensures -0x80 <= v < 0x80
    ensures v >= 0 <==> b < 0x80
    ensures (v - b as int) % 0x100 == 0
  {
    if b < 0x80 then b as int else b as int - 0x100
  }

  /** `a.saturating_sub(b)` on unsigned integers: the difference, or 0 instead
      of going below zero. */
  function SaturatingSub(a: nat, b: nat): (d: nat)
    ensures a >= b ==> d + b == a
    ensures a < b ==> d == 0
  {
    if a >= b then a - b else 0
  }

  /** `xs.iter().rposition(p)`: the index of the last element satisfying `p`,
      searching from the back, or `None` when no element does. */
  function RPosition<T>(xs: seq<T>, p: T -> bool): (r: Option<nat>)
    ensures r.Some? ==> r.value < |xs| && p(xs[r.value])
    ensures r.Some? ==> forall k :: r.value < k < |xs| ==> !p(xs[k])
    ensures r.None? ==> forall k :: 0 <= k < |xs| ==> !p(xs[k])
    decreases |xs|
  {
    if xs == [] then None
    else if p(xs[|xs| - 1]) then Some(|xs| - 1)
    else RPosition(xs[..|xs| - 1], p)
  }
}
