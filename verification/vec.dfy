/**
 * The operations of Rust's `Vec<u8>` and byte slices that the header splicer
 * uses, on values. Each `requires` is the bound whose violation makes Rust panic.
 */
module VecOps {
  import opened Common

  /** `v.copy_within(lo..hi, dest)`: copies `v[lo..hi]` onto `v[dest..]`, correct for overlapping ranges. */
  function CopyWithin(v: Bytes, lo: nat, hi: nat, dest: nat): (r: Bytes)
    requires lo <= hi <= |v| && dest + (hi - lo) <= |v|
    ensures |r| == |v|
    ensures forall k :: 0 <= k < |v| ==> r[k] == if dest <= k < dest + (hi - lo) then v[lo + (k - dest)] else v[k]
  {
    v[..dest] + v[lo..hi] + v[dest + (hi - lo)..]
  }

  /** `v.truncate(n)`: keeps the first `n` bytes. */
  function Truncate(v: Bytes, n: nat): (r: Bytes)
    ensures |r| == if n < |v| then n else |v|
    ensures forall k :: 0 <= k < |r| ==> r[k] == v[k]
  {
    if n < |v| then v[..n] else v
  }

  /** `v.resize(n, fill)`: cuts to `n` bytes or pads with `fill`. */
  function Resize(v: Bytes, n: nat, fill: byte): (r: Bytes)
    ensures |r| == n
    ensures forall k :: 0 <= k < n ==> r[k] == if k < |v| then v[k] else fill
  {
    if n <= |v| then v[..n] else v + seq(n - |v|, _ => fill)
  }

  /** `v[at..at + |s|].copy_from_slice(s)`. */
  function CopyFromSlice(v: Bytes, at: nat, s: Bytes): (r: Bytes)
    requires at + |s| <= |v|
    ensures |r| == |v|
    ensures forall k :: 0 <= k < |v| ==> r[k] == if at <= k < at + |s| then s[k - at] else v[k]
  {
    v[..at] + s + v[at + |s|..]
  }
}
