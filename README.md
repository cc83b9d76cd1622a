# truncating-arraystring, modelled in Dafny

The crate provides `TruncatingArrayString<CAP>`, a fixed-capacity UTF-8 text
buffer wrapped around arrayvec's `ArrayString<CAP>`. Its append,
`try_push_str_truncate`, never fails hard. It writes as much of the input as
fits and splits only between two characters. When something was left over,
it returns `Err` carrying the unwritten suffix. `floor_char_boundary` finds
the split point by looking back at most three bytes for a byte that starts a
character, and `is_utf8_char_boundary` tells such a byte from a continuation
byte with a signed-cast trick. The `fmt::Write` adapter maps both appends to
a payload-free `fmt::Error`.

Files:

- `utf8.dfy` (module `Utf8`): bytes, the lead/continuation structure of
  UTF-8 (section 3 of RFC 3629), and the lemmas about boundaries that the
  split relies on.
- `rust_core.dfy` (module `RustCore`): the parts of Rust's core library the
  crate uses. These are `Option`, `Result`, `fmt::Error`, the `u8` to `i8`
  cast, `saturating_sub` and `rposition`.
- `array_string.dfy` (module `ArrayVec`): `ArrayString<CAP>`, modelled only
  by its observable contract. It has an array of `capacity` bytes and a
  length, plus `push_str` and `try_push`.
- `truncating.dfy` (module `Truncating`): `is_utf8_char_boundary`,
  `floor_char_boundary` and the `TruncatingArrayString` class with
  `new`, `try_push_str_truncate`, `write_str` and `write_char`.
- `scenarios.dfy` (module `Scenarios`): the crate's two unit tests, their
  remainders, and the exact-fill edge case, each proved about the model.

Text is `seq<Byte>`. A Rust `&str` is always valid UTF-8, so every string
input carries `requires WellFormed(s)`. The source trusts this when it calls
`unwrap_unchecked` at src/lib.rs:53. The model instead proves, from
well-formedness, that the four-byte window always holds a start byte.
`Valid()` states the buffer's invariant: length at most the capacity, and
well-formed content. Every method keeps it.

Exact fill: when the input is exactly as long as the remaining capacity, the
strict `<` at src/lib.rs:15 sends it down the split branch. There
`floor_char_boundary` returns the whole length. So the input is written in
full, but the result is `Err` with an empty remainder, and `write_str`
returns `fmt::Error`. An empty input offered to a full buffer gives
`Err("")` the same way. Callers may expect an exact fill to report
success; the strict `<` makes it report `Err("")`. See
`TryPushStrTruncate`'s exact-fill postcondition and
`Scenarios.ExactFillReportsErr`.

## Model

| member | source | states |
|---|---|---|
| Utf8.CharWidth | src/lib.rs:52 | a lead byte announces a character of 1 to 4 bytes; continuation bytes and 11111xxx start none |
| Utf8.OneCharWellFormed | src/lib.rs:33-35 | one encoded character, as `write_char` appends it, is well-formed text on its own |
| Utf8.ConcatWellFormed | src/lib.rs:16-20 | appending well-formed text to well-formed text gives well-formed text, so `push_str` keeps the buffer valid |
| Utf8.SplitAtBoundary | src/lib.rs:57-61 | in well-formed text, the part before offset k is well-formed exactly when k is the end or byte k is not a continuation byte; the part after k is then well-formed too |
| Utf8.StartWithinThreeBytes | src/lib.rs:47-53 | in well-formed text, every position has a character-start byte at most three bytes before it, so the unchecked unwrap never meets `None` |
| Utf8.NextCharEnds | src/lib.rs:43-55 | the character that starts at a boundary ends inside the text, and the prefix up to its end is again well-formed |
| Utf8.CharAtLastStartReachesPast | src/lib.rs:47-53 | when byte r starts a character and only continuation bytes follow it up to `index`, that character reaches past `index`, so the split at r leaves out a character that would not fit |
| Utf8.AsciiWellFormed | src/lib.rs:71-72 | ASCII text such as the tests' "12" and "3456789" is well-formed |
| RustCore.AsI8 | src/lib.rs:60 | `b as i8` lies in -128..127, is non-negative exactly for bytes below 0x80, and equals b modulo 256 |
| RustCore.SaturatingSub | src/lib.rs:47 | `index.saturating_sub(3)` is `index - 3`, or 0 when that would go below zero |
| RustCore.RPosition | src/lib.rs:48-50 | `rposition` returns the last index whose element satisfies the predicate, and `None` exactly when no element does |
| Truncating.IsUtf8CharBoundary | src/lib.rs:58-61 | the signed test `(b as i8) >= -0x40` holds exactly when `b < 0x80 or b >= 0xC0`, i.e. when b is not a continuation byte |
| Truncating.FloorCharBoundary | src/lib.rs:43-55 | clamps to the length when `index >= len`; otherwise the result lies in `index-3..=index` (saturating), its byte starts a character, and no later byte up to `index` does |
| Truncating.CharBoundaryMatchesByteTest | src/lib.rs:57-61 | on well-formed text, offset k splits it into well-formed halves exactly when k is 0, the end, or `is_utf8_char_boundary` holds of byte k, as Rust's `str::is_char_boundary` decides |
| Truncating.FloorSplitsCleanly | src/lib.rs:19 | on well-formed text, the text before and after the result of `floor_char_boundary` is well-formed, so `split_at` never cuts a character |
| Truncating.FloorIsLargestBoundary | src/lib.rs:43-55 | on well-formed text, no offset above the result and at or below `index` is a character boundary: the four-byte search finds the largest boundary at or below `index` |
| Truncating.TruncatingArrayString.RemainingCapacity | src/lib.rs:13 | `capacity() - len()` plus the stored length is exactly the capacity, so the subtraction never underflows |
| Truncating.TruncatingArrayString.constructor | src/lib.rs:8-10 | `new()` gives a valid, empty buffer of the given capacity |
| Truncating.TruncatingArrayString.TryPushStrTruncate | src/lib.rs:12-23 | `Ok` exactly when the input is strictly shorter than the remaining capacity, and then all of it is appended; otherwise the content gains the prefix up to `floor_char_boundary` and `Err` carries the rest; written bytes plus the remainder equal the input; the remainder is well-formed; its first character would not have fitted; an exact fill appends everything and returns `Err` with an empty remainder; a full buffer takes nothing and hands back the whole input; the buffer stays valid |
| Truncating.TruncatingArrayString.WriteStr | src/lib.rs:37-39 | `write_str` writes what `try_push_str_truncate` writes, and returns `fmt::Error` exactly when that returns `Err` |
| Truncating.TruncatingArrayString.WriteChar | src/lib.rs:33-35 | `write_char` appends the whole character when it fits in the remaining capacity and otherwise changes nothing and returns `fmt::Error` |
| ArrayVec.ArrayString.constructor | src/lib.rs:9 | `ArrayString::new()` is valid, empty and has the given capacity |
| ArrayVec.ArrayString.Contents | src/lib.rs:73 | `&buf.0[..]` is well-formed text of at most `capacity` bytes |
| ArrayVec.ArrayString.Len | src/lib.rs:13 | `len()` is the length of the stored text and never exceeds the capacity |
| ArrayVec.ArrayString.PushStr | src/lib.rs:16 | `push_str` of text that fits appends exactly that text and keeps the buffer valid |
| ArrayVec.ArrayString.TryPush | src/lib.rs:34 | `try_push` appends the whole character when it fits; otherwise it leaves the buffer unchanged and hands the character back |
| Scenarios.ItTruncates | src/lib.rs:68-74 | capacity 5: writing "12" succeeds, then writing "3456789" fails, and the buffer holds "12345" |
| Scenarios.ItTruncatesAtCharBoundary | src/lib.rs:76-82 | capacity 5: writing "α" succeeds, then writing "βγ" fails, and the buffer holds "αβ" with no byte of "γ" |
| Scenarios.AsciiRemainder | src/lib.rs:18-21 | pushing "123456789" into an empty 5-byte buffer keeps "12345" and returns the remainder "6789" |
| Scenarios.GreekRemainder | src/lib.rs:18-21 | after "α", pushing "βγ" keeps "αβ" and returns the remainder "γ" whole |
| Scenarios.ExactFillReportsErr | src/lib.rs:15-21 | "12345" into an empty 5-byte buffer is written whole but returns `Err("")`; then "6" is handed back whole, and even "" returns `Err("")` |

## Left out

- The `fmt::Display` impl (src/lib.rs:26-30): it only forwards the content to the standard formatter.
- The `write!` macro and `fmt::Arguments`: in the tests they hand the argument once to `write_str`, so the scenarios call `WriteStr` directly.
- Encoding a `char` to UTF-8 in `write_char` and `try_push`: the character arrives already encoded, as bytes that form exactly one character.
- arrayvec's internals and its panics: `ArrayString` is kept to capacity, length, `push_str` (whose callers must make the text fit) and `try_push`.
- The undefined behaviour of `unwrap_unchecked` on malformed input: a Rust `&str` cannot be malformed, so well-formedness is a precondition and the unwrap is proved safe.
- The stricter rules of section 4 of RFC 3629 (overlong forms, surrogates, code points above U+10FFFF): only the lead/continuation structure is modelled. That admits more sequences than valid UTF-8, so every property proved also holds for valid UTF-8.
- The remainder is a slice borrowed from the input in the source; in the model it is a sequence value, so borrowing and lifetimes are not captured.
- The `Debug` derive (src/lib.rs:4): formatting only.
