/** The parts of Rust's standard library that the layout code leans on:
    `Option`, `Range<usize>`, and `str` as a sequence of UTF-8 bytes with
    the boundary rule that `str::get` and slicing obey. */
module RustStd {

  datatype Option<+T> = None | Some(value: T) {
    function GetOr(default: T): T {
      match this
      case Some(v) => v
      case None => default
    }
  }

  /** `std::ops::Range<usize>`: the half-open interval `start..end`. */
  datatype Range = Range(start: nat, end: nat)

  newtype byte = x: int | 0 <= x < 256

  const NEWLINE: byte := 0x0A

  /** A UTF-8 continuation byte never starts a char. */
  predicate IsContinuation(b: byte) {
    0x80 <= b <= 0xBF
  }

  /** `str::is_char_boundary`: 0 and the length are boundaries, an index past
      the end is not, and an inner index is one unless it points into a char. */
  predicate IsCharBoundary(s: seq<byte>, i: nat) {
    i == 0 || i == |s| || (i < |s| && !IsContinuation(s[i]))
  }

  /** The ranges that `str::get` accepts: ordered, both ends on boundaries. */
  predicate IsStrRange(s: seq<byte>, r: Range) {
    r.start <= r.end && IsCharBoundary(s, r.start) && IsCharBoundary(s, r.end)
  }

  /** `str::get(r)`: the slice, or `None` when `r` is reversed, out of bounds
      or splits a char. */
  function Get(s: seq<byte>, r: Range): (o: Option<seq<byte>>)
    ensures o.Some? <==> IsStrRange(s, r)
    ensures o.Some? ==> r.end <= |s| && |o.value| == r.end - r.start
    ensures o.Some? ==> o.value == s[r.start..r.end]
  {
    if IsStrRange(s, r) then Some(s[r.start..r.end]) else None
  }

  /** Number of bytes of `s` that satisfy `p`. */
  function Count(s: seq<byte>, p: byte -> bool): nat {
    if s == [] then 0 else (if p(s[0]) then 1 else 0) + Count(s[1..], p)
  }

  lemma {:induction false} CountAppend(a: seq<byte>, b: seq<byte>, p: byte -> bool)
    ensures Count(a + b, p) == Count(a, p) + Count(b, p)
  {
    if a != [] {
      assert (a + b)[1..] == a[1..] + b;
      CountAppend(a[1..], b, p);
    } else {
      assert a + b == b;
    }
  }
}
