/** The map of physical frames, one bit each, searched and changed through 32-bit words (kernel/src/pmm.c). */
module FrameMap {
  import opened Options
  import opened Bits

  /** The frames whose bit is set. */
  ghost function Used(m: seq<bv8>): set<nat>
  {
    set i: nat | i < 8 * |m| && Bit(m, i)
  }

  lemma FullWord(m: seq<bv8>, w: nat, k: nat)
    requires 4 * w + 4 <= |m| && WordAt(m, w) == 0xFFFFFFFF && k < 32
    ensures Bit(m, 32 * w + k)
  {
    var b := 4 * w + k / 8;
    WordBytes(m[4 * w], m[4 * w + 1], m[4 * w + 2], m[4 * w + 3]);
    assert m[4 * w] == 0xFF && m[4 * w + 1] == 0xFF && m[4 * w + 2] == 0xFF && m[4 * w + 3] == 0xFF;
    assert m[b] == 0xFF;
    FullByte(m[b]);
    assert (32 * w + k) / 8 == b && (32 * w + k) % 8 == k % 8;
  }

  class Frames {
    var bits: seq<bv8>

    ghost predicate Valid()
      reads this
    {
      |bits| % 4 == 0
    }

    /** find_free_frame: the lowest free frame other than frame 0. */
    method Find() returns (idx: Option<nat>)
      requires Valid()
      ensures idx.Some? ==> 0 < idx.value < 8 * |bits| && !Bit(bits, idx.value)
      ensures idx.Some? ==> forall i :: 0 < i < idx.value ==> Bit(bits, i)
      ensures idx.None? ==> forall i :: 0 < i < 8 * |bits| ==> Bit(bits, i)
    {
      hide Bit;
      hide WordAt;
      hide Test32;
      var i := 0;
      while i < |bits| / 4
        invariant 0 <= i <= |bits| / 4
        invariant forall x :: 0 < x < 32 * i ==> Bit(bits, x)
      {
        if WordAt(bits, i) != 0xFFFFFFFF {
          var m := 0;
          while m < 32
            invariant 0 <= m <= 32
            invariant forall x :: 0 < x < 32 * i + m ==> Bit(bits, x)
          {
            if i != 0 || m != 0 {
              assert (32 * i + m) / 32 == i && (32 * i + m) % 32 == m;
              WordIsBytes(bits, 32 * i + m);
              if !Test32(WordAt(bits, i), m) {
                return Some(32 * i + m);
              }
            }
            m := m + 1;
          }
        } else {
          forall x | 32 * i <= x < 32 * i + 32 ensures Bit(bits, x) { FullWord(bits, i, x - 32 * i); }
        }
        i := i + 1;
      }
      idx := None;
    }

    /** reserve_frame */
    method Reserve(idx: nat)
      requires Valid() && idx < 8 * |bits|
      modifies this
      ensures Valid() && |bits| == old(|bits|) && Used(bits) == old(Used(bits)) + {idx}
    {
      hide WordAt;
      hide PutWord;
      hide SetBit;
      hide Bit;
      ghost var m := bits;
      WordIsBytes(bits, idx);
      bits := PutWord(bits, idx / 32, Set32(WordAt(bits, idx / 32), idx % 32));
      forall i: nat | i < 8 * |m| ensures Bit(bits, i) <==> i == idx || Bit(m, i) { BitFrame(m, idx, i); }
    }

    /** release_frame */
    method Release(idx: nat)
      requires Valid() && idx < 8 * |bits|
      modifies this
      ensures Valid() && |bits| == old(|bits|) && Used(bits) == old(Used(bits)) - {idx}
    {
      hide WordAt;
      hide PutWord;
      hide ClearBit;
      hide Bit;
      ghost var m := bits;
      WordIsBytes(bits, idx);
      bits := PutWord(bits, idx / 32, Clear32(WordAt(bits, idx / 32), idx % 32));
      forall i: nat | i < 8 * |m| ensures Bit(bits, i) <==> i != idx && Bit(m, i) { BitFrame(m, idx, i); }
    }
  }
}
