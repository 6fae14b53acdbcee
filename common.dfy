/** Types shared by the parts of the screen locker model. */
module Common {

  /** An unsigned 8-bit value: one byte of the password buffer or one colour lane of a pixel. */
  newtype byte = x: int | 0 <= x < 256

  /** A value that may be missing, as a C pointer that may be NULL. */
  datatype Option<T> = None | Some(value: T)

  /** The sequence `n` copies of the zero byte, as left behind by `memset(buf, 0, n)`. */
  function Zeros(n: nat): (z: seq<byte>)
    ensures |z| == n
    ensures forall i :: 0 <= i < n ==> z[i] == 0
  {
    seq(n, _ => 0)
  }

  /** The indices `lo`, `lo + 1`, ..., `hi - 1` in increasing order. */
  function Range(lo: nat, hi: nat): (r: seq<nat>)
    ensures |r| == if lo <= hi then hi - lo else 0
    ensures forall i :: 0 <= i < |r| ==> r[i] == lo + i
    decreases hi - lo
  {
    if lo >= hi then [] else [lo] + Range(lo + 1, hi)
  }

  /** Counting one index further appends that index. */
  lemma RangeSnoc(lo: nat, hi: nat)
    requires lo <= hi
    ensures Range(lo, hi + 1) == Range(lo, hi) + [hi]
  {
    assert |Range(lo, hi + 1)| == |Range(lo, hi) + [hi]|;
  }
}
