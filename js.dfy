/** The few JavaScript semantics the codec leans on: bytes, truthiness of an
    optional count, and the index rules of `Array.prototype.slice`. */
module Js {
  import opened Wrappers

  /** An element of a Node.js `Buffer` or of an array of byte values. */
  newtype byte = x: int | 0 <= x < 256

  /** JavaScript truthiness of an optional count: both `undefined` and `0` are falsy. */
  predicate Truthy(n: Option<nat>) {
    n.Some? && n.value != 0
  }

  /** How `slice` turns an argument into a position of a sequence of length `len`:
      a negative argument counts from the end, and the result is clamped to [0, len]. */
  function SliceIndex(i: int, len: nat): (k: nat)
    ensures k <= len
  {
    if i < 0 then (if len + i < 0 then 0 else len + i)
    else if i < len then i else len
  }

  /** `s.slice(0, end)` */
  function SliceTo<T>(s: seq<T>, end: int): seq<T> {
    s[..SliceIndex(end, |s|)]
  }

  /** `s.slice(start)` */
  function SliceFrom<T>(s: seq<T>, start: int): seq<T> {
    s[SliceIndex(start, |s|)..]
  }

  /** `slice(0, e)` and `slice(e)` cut a sequence at the same position, whatever
      `e` is, so together they give the sequence back; a non-negative `e` keeps at
      most `e` elements in front. */
  lemma SliceSplit<T>(s: seq<T>, e: int)
    ensures SliceTo(s, e) + SliceFrom(s, e) == s
    ensures 0 <= e ==> |SliceTo(s, e)| == if e < |s| then e else |s|
    ensures e < 0 ==> |SliceFrom(s, e)| == if -e < |s| then -e else |s|
  {
  }

  /** For a positive `k`, `slice(0, -k)` drops the last `k` elements and `slice(-k)`
      keeps them; both saturate when `k` exceeds the length. */
  lemma SliceNegative<T>(s: seq<T>, k: int)
    requires 0 < k
    ensures k <= |s| ==> SliceTo(s, -k) == s[..|s| - k] && SliceFrom(s, -k) == s[|s| - k..]
    ensures |s| < k ==> SliceTo(s, -k) == [] && SliceFrom(s, -k) == s
    ensures SliceTo(s, -k) + SliceFrom(s, -k) == s
  {
  }
}
