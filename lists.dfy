/** Python list semantics the register blocks depend on: slicing with
    negative and out-of-range bounds, slice assignment (which may change the
    length of the list) and `insert`. */
module Lists {

  /** How Python normalises a slice bound against a list of length `n`:
      a negative bound counts from the end, then the bound is clamped to
      `[0, n]`. */
  function Clamp(i: int, n: nat): (r: nat)
    ensures r <= n
    ensures 0 <= i <= n ==> r == i
    ensures n < i ==> r == n
  {
    if i < 0 then (if i + n < 0 then 0 else i + n) else if i > n then n else i
  }

  /** `s[lo:hi]` */
  function Slice<T>(s: seq<T>, lo: int, hi: int): (r: seq<T>)
    ensures |r| <= |s|
  {
    var a := Clamp(lo, |s|);
    var b := Clamp(hi, |s|);
    if a < b then s[a..b] else []
  }

  /** A slice whose bounds lie inside the list is the plain subsequence, and a
      slice never has more elements than its bounds span. */
  lemma SliceInRange<T>(s: seq<T>, lo: int, hi: int)
    requires 0 <= lo <= hi
    ensures |Slice(s, lo, hi)| <= hi - lo
    ensures hi <= |s| ==> Slice(s, lo, hi) == s[lo..hi]
    ensures lo <= |s| <= hi ==> Slice(s, lo, hi) == s[lo..]
  {
  }

  /** The list after `s[lo:hi] = v` */
  function AssignSlice<T>(s: seq<T>, lo: int, hi: int, v: seq<T>): seq<T> {
    var a := Clamp(lo, |s|);
    var b := if Clamp(hi, |s|) < a then a else Clamp(hi, |s|);
    s[..a] + v + s[b..]
  }

  /** Assigning a slice of the same length as the new values, inside the
      list, overwrites those positions and keeps everything else. */
  lemma AssignSliceInRange<T>(s: seq<T>, lo: int, v: seq<T>)
    requires 0 <= lo && lo + |v| <= |s|
    ensures |AssignSlice(s, lo, lo + |v|, v)| == |s|
    ensures forall k :: 0 <= k < |v| ==> AssignSlice(s, lo, lo + |v|, v)[lo + k] == v[k]
    ensures forall k :: 0 <= k < |s| && !(lo <= k < lo + |v|) ==> AssignSlice(s, lo, lo + |v|, v)[k] == s[k]
  {
  }

  /** Assigning a slice that runs past the end of the list makes the list
      longer: it then ends with the new values. */
  lemma AssignSliceGrows<T>(s: seq<T>, lo: int, v: seq<T>)
    requires 0 <= lo <= |s| < lo + |v|
    ensures AssignSlice(s, lo, lo + |v|, v) == s[..lo] + v
    ensures |AssignSlice(s, lo, lo + |v|, v)| > |s|
  {
  }

  /** `s.insert(i, x)` for a non-negative index. */
  function Insert<T>(s: seq<T>, i: nat, x: T): (r: seq<T>)
    ensures |r| == |s| + 1
    ensures i < |s| ==> r[i] == x
    ensures |s| <= i ==> r[|s|] == x
  {
    if i < |s| then s[..i] + [x] + s[i..] else s + [x]
  }

  /** `[None for _ in range(0, n)]` and friends: `n` copies of `x`; an empty
      list when `n` is not positive. */
  function Repeat<T>(x: T, n: int): (r: seq<T>)
    ensures |r| == if n < 0 then 0 else n
    ensures forall k :: 0 <= k < |r| ==> r[k] == x
  {
    if n <= 0 then [] else Repeat(x, n - 1) + [x]
  }
}
