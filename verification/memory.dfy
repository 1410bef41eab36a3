/**
 A flat byte-addressed memory, the C library calls the crop makes on it
 (`memmove`, `memcpy`) and the record of cache-maintenance requests.
 */
module Memory {

  /** A C pointer: NULL, or a byte address into the flat memory. */
  datatype Ptr = Null | Addr(at: nat)

  /** `[a, a + alen)` and `[b, b + blen)` share no byte. */
  predicate Disjoint(a: nat, alen: nat, b: nat, blen: nat) {
    a + alen <= b || b + blen <= a
  }

  /**
   `memmove(dst, src, n)`: afterwards the `n` bytes at `dst` are the `n` bytes
   that were at `src` before the call, even when the two ranges overlap, and
   no other byte changes. `memcpy` on non-overlapping ranges has the same effect.
   */
  function Memmove(mem: seq<bv8>, dst: nat, src: nat, n: nat): (r: seq<bv8>)
    requires dst + n <= |mem| && src + n <= |mem|
    ensures |r| == |mem|
    ensures r[dst..dst + n] == mem[src..src + n]
    ensures forall a :: 0 <= a < |mem| && !(dst <= a < dst + n) ==> r[a] == mem[a]
  {
    mem[..dst] + mem[src..src + n] + mem[dst + n..]
  }

  /** One `SCB_CleanInvalidateDCache_by_Addr(addr, size)` request. */
  datatype Flush = CleanInvalidate(addr: nat, size: nat)

  /** Bytes outside the only range that was written still hold what they held. */
  lemma {:induction false} RangeIntact(before: seq<bv8>, after: seq<bv8>, lo: nat, hi: nat, written: nat, writtenEnd: nat)
    requires |after| == |before| && lo <= hi <= |before|
    requires forall a | 0 <= a < |before| && !(written <= a < writtenEnd) :: after[a] == before[a]
    requires hi <= written || writtenEnd <= lo
    ensures after[lo..hi] == before[lo..hi]
  {
  }

  /** Bytes `[lo, hi)` of a buffer that starts at `base` are bytes `[base + lo, base + hi)` of memory. */
  lemma {:induction false} BufferSlice(mem: seq<bv8>, base: nat, n: nat, lo: nat, hi: nat)
    requires base + n <= |mem| && lo <= hi <= n
    ensures mem[base..base + n][lo..hi] == mem[base + lo..base + hi]
  {
    var buf := mem[base..base + n];
    assert forall a | 0 <= a < hi - lo :: buf[lo..hi][a] == buf[lo + a] == mem[base + lo + a];
  }

  /**
   Bytes `[lo, hi)` of the buffer of `n` bytes at `base` survive a write that
   changed only `[written, writtenEnd)` when they lie clear of that range.
   */
  lemma {:induction false} BufferIntact(before: seq<bv8>, after: seq<bv8>, base: nat, n: nat, lo: nat, hi: nat,
                                        written: nat, writtenEnd: nat)
    requires |after| == |before| && base + n <= |before| && lo <= hi <= n
    requires forall a | 0 <= a < |before| && !(written <= a < writtenEnd) :: after[a] == before[a]
    requires base + hi <= written || writtenEnd <= base + lo
    ensures after[base + lo..base + hi] == before[base..base + n][lo..hi]
  {
    RangeIntact(before, after, base + lo, base + hi, written, writtenEnd);
    BufferSlice(before, base, n, lo, hi);
  }

  /**
   A `memmove` of `len` bytes to the end `dst` of an already written run `[base, dst)`
   extends that run by the bytes that were at `src`.
   */
  lemma {:induction false} MemmoveAppends(mem: seq<bv8>, base: nat, dst: nat, src: nat, len: nat)
    requires base <= dst && dst + len <= |mem| && src + len <= |mem|
    ensures Memmove(mem, dst, src, len)[base..dst + len] == mem[base..dst] + mem[src..src + len]
  {
    var r := Memmove(mem, dst, src, len);
    assert r[base..dst + len] == r[base..dst] + r[dst..dst + len];
    assert r[base..dst] == mem[base..dst];
  }

  /**
   A `memmove` of `len` bytes to the end `dst` of a run `[base, dst)` outside
   which `m` agrees with `orig` leaves memory agreeing with `orig` outside
   `[base, dst + len)`.
   */
  lemma {:induction false} MemmoveFrame(orig: seq<bv8>, m: seq<bv8>, base: nat, dst: nat, src: nat, len: nat)
    requires |m| == |orig| && base <= dst && dst + len <= |m| && src + len <= |m|
    requires forall a | 0 <= a < |orig| && !(base <= a < dst) :: m[a] == orig[a]
    ensures forall a | 0 <= a < |orig| && !(base <= a < dst + len) :: Memmove(m, dst, src, len)[a] == orig[a]
  {
  }
}
