/** Bits of bytes and of little-endian 32-bit words.  The kernel keeps its bitmaps in memory and on
    disk as bytes, and reads and writes them sometimes as bytes and sometimes as words. */
module Bits {

  function Mask8(k: nat): bv8
    requires k < 8
  {
    (1 as bv8) << k
  }

  function Mask32(k: nat): bv32
    requires k < 32
  {
    (1 as bv32) << k
  }

  predicate Test8(x: bv8, k: nat)
    requires k < 8
  {
    x & Mask8(k) != 0
  }

  function Set8(x: bv8, k: nat): bv8
    requires k < 8
  {
    x | Mask8(k)
  }

  function Clear8(x: bv8, k: nat): bv8
    requires k < 8
  {
    x & !Mask8(k)
  }

  predicate Test32(x: bv32, k: nat)
    requires k < 32
  {
    x & Mask32(k) != 0
  }

  function Set32(x: bv32, k: nat): bv32
    requires k < 32
  {
    x | Mask32(k)
  }

  function Clear32(x: bv32, k: nat): bv32
    requires k < 32
  {
    x & !Mask32(k)
  }

  lemma Cases8(k: nat)
    requires k < 8
    ensures k == 0 || k == 1 || k == 2 || k == 3 || k == 4 || k == 5 || k == 6 || k == 7
  {
  }

  lemma MaskPlaces(i: nat, j: nat)
    requires i < 8 && j < 8
    ensures Mask8(i) != 0 && (i != j ==> Mask8(i) & Mask8(j) == 0)
  {
    Cases8(i);
    Cases8(j);
  }

  lemma MasksApart(x: bv8, a: bv8, b: bv8)
    requires a & b == 0
    ensures (x | a) & b == x & b && (x & !a) & b == x & b
  {
  }

  lemma MaskAlone(x: bv8, a: bv8)
    requires a != 0
    ensures (x | a) & a != 0 && (x & !a) & a == 0
  {
  }

  /** Setting or clearing a bit of a byte changes that bit only. */
  lemma ByteBits(x: bv8, i: nat, j: nat)
    requires i < 8 && j < 8
    ensures Test8(Set8(x, i), j) <==> i == j || Test8(x, j)
    ensures Test8(Clear8(x, i), j) <==> i != j && Test8(x, j)
  {
    hide Mask8;
    MaskPlaces(i, j);
    if i == j { MaskAlone(x, Mask8(i)); } else { MasksApart(x, Mask8(i), Mask8(j)); }
  }

  /** A byte is 0xFF exactly when all its bits are set. */
  lemma FullByte(x: bv8)
    ensures x == 0xFF <==> forall k: nat :: k < 8 ==> Test8(x, k)
  {
    assert && Mask8(0) == 1 && Mask8(1) == 2 && Mask8(2) == 4 && Mask8(3) == 8
           && Mask8(4) == 16 && Mask8(5) == 32 && Mask8(6) == 64 && Mask8(7) == 128;
    if x == 0xFF {
      forall k: nat | k < 8 ensures Test8(x, k) {
        Cases8(k);
      }
    } else {
      assert !(Test8(x, 0) && Test8(x, 1) && Test8(x, 2) && Test8(x, 3)
               && Test8(x, 4) && Test8(x, 5) && Test8(x, 6) && Test8(x, 7));
    }
  }

  // ----- Words of four bytes, least significant first

  function Word(a: bv8, b: bv8, c: bv8, d: bv8): bv32
  {
    (a as bv32) | ((b as bv32) << 8) | ((c as bv32) << 16) | ((d as bv32) << 24)
  }

  function Byte0(v: bv32): bv8 { (v & 0xFF) as bv8 }
  function Byte1(v: bv32): bv8 { ((v >> 8) & 0xFF) as bv8 }
  function Byte2(v: bv32): bv8 { ((v >> 16) & 0xFF) as bv8 }
  function Byte3(v: bv32): bv8 { ((v >> 24) & 0xFF) as bv8 }

  lemma WordBytes(a: bv8, b: bv8, c: bv8, d: bv8)
    ensures var v := Word(a, b, c, d); Byte0(v) == a && Byte1(v) == b && Byte2(v) == c && Byte3(v) == d
  {
  }

  // Bit 8q + k of a word is bit k of its byte q.

  lemma TestByte0(a: bv8, b: bv8, c: bv8, d: bv8, k: nat)
    requires k < 8
    ensures Test32(Word(a, b, c, d), k) <==> Test8(a, k)
  {
    Cases8(k);
  }

  lemma SetByte0(a: bv8, b: bv8, c: bv8, d: bv8, k: nat)
    requires k < 8
    ensures Set32(Word(a, b, c, d), k) == Word(Set8(a, k), b, c, d)
  {
    Cases8(k);
  }

  lemma ClearByte0(a: bv8, b: bv8, c: bv8, d: bv8, k: nat)
    requires k < 8
    ensures Clear32(Word(a, b, c, d), k) == Word(Clear8(a, k), b, c, d)
  {
    Cases8(k);
  }

  lemma TestByte1(a: bv8, b: bv8, c: bv8, d: bv8, k: nat)
    requires k < 8
    ensures Test32(Word(a, b, c, d), k + 8) <==> Test8(b, k)
  {
    Cases8(k);
  }

  lemma SetByte1(a: bv8, b: bv8, c: bv8, d: bv8, k: nat)
    requires k < 8
    ensures Set32(Word(a, b, c, d), k + 8) == Word(a, Set8(b, k), c, d)
  {
    Cases8(k);
  }

  lemma ClearByte1(a: bv8, b: bv8, c: bv8, d: bv8, k: nat)
    requires k < 8
    ensures Clear32(Word(a, b, c, d), k + 8) == Word(a, Clear8(b, k), c, d)
  {
    Cases8(k);
  }

  lemma TestByte2(a: bv8, b: bv8, c: bv8, d: bv8, k: nat)
    requires k < 8
    ensures Test32(Word(a, b, c, d), k + 16) <==> Test8(c, k)
  {
    Cases8(k);
  }

  lemma SetByte2(a: bv8, b: bv8, c: bv8, d: bv8, k: nat)
    requires k < 8
    ensures Set32(Word(a, b, c, d), k + 16) == Word(a, b, Set8(c, k), d)
  {
    Cases8(k);
  }

  lemma ClearByte2(a: bv8, b: bv8, c: bv8, d: bv8, k: nat)
    requires k < 8
    ensures Clear32(Word(a, b, c, d), k + 16) == Word(a, b, Clear8(c, k), d)
  {
    Cases8(k);
  }

  lemma TestByte3(a: bv8, b: bv8, c: bv8, d: bv8, k: nat)
    requires k < 8
    ensures Test32(Word(a, b, c, d), k + 24) <==> Test8(d, k)
  {
    Cases8(k);
  }

  lemma SetByte3(a: bv8, b: bv8, c: bv8, d: bv8, k: nat)
    requires k < 8
    ensures Set32(Word(a, b, c, d), k + 24) == Word(a, b, c, Set8(d, k))
  {
    Cases8(k);
  }

  lemma ClearByte3(a: bv8, b: bv8, c: bv8, d: bv8, k: nat)
    requires k < 8
    ensures Clear32(Word(a, b, c, d), k + 24) == Word(a, b, c, Clear8(d, k))
  {
    Cases8(k);
  }

  // ----- Bitmaps as byte sequences

  predicate Bit(s: seq<bv8>, n: nat)
    requires n / 8 < |s|
  {
    Test8(s[n / 8], n % 8)
  }

  function SetBit(s: seq<bv8>, n: nat): (r: seq<bv8>)
    requires n / 8 < |s|
    ensures |r| == |s|
  {
    s[n / 8 := Set8(s[n / 8], n % 8)]
  }

  function ClearBit(s: seq<bv8>, n: nat): (r: seq<bv8>)
    requires n / 8 < |s|
    ensures |r| == |s|
  {
    s[n / 8 := Clear8(s[n / 8], n % 8)]
  }

  lemma BitFrame(s: seq<bv8>, n: nat, m: nat)
    requires n / 8 < |s| && m / 8 < |s|
    ensures Bit(SetBit(s, n), m) <==> m == n || Bit(s, m)
    ensures Bit(ClearBit(s, n), m) <==> m != n && Bit(s, m)
  {
    hide Test8;
    hide Set8;
    hide Clear8;
    if n / 8 == m / 8 { ByteBits(s[n / 8], n % 8, m % 8); }
  }

  function WordAt(s: seq<bv8>, w: nat): bv32
    requires 4 * w + 4 <= |s|
  {
    Word(s[4 * w], s[4 * w + 1], s[4 * w + 2], s[4 * w + 3])
  }

  function PutWord(s: seq<bv8>, w: nat, v: bv32): (r: seq<bv8>)
    requires 4 * w + 4 <= |s|
    ensures |r| == |s|
  {
    s[4 * w := Byte0(v)][4 * w + 1 := Byte1(v)][4 * w + 2 := Byte2(v)][4 * w + 3 := Byte3(v)]
  }

  lemma At0(s: seq<bv8>, w: nat, k: nat)
    requires 4 * w + 4 <= |s| && k < 8
    ensures Test32(WordAt(s, w), k) <==> Test8(s[4 * w], k)
    ensures PutWord(s, w, Set32(WordAt(s, w), k)) == s[4 * w := Set8(s[4 * w], k)]
    ensures PutWord(s, w, Clear32(WordAt(s, w), k)) == s[4 * w := Clear8(s[4 * w], k)]
  {
    hide Word;
    hide Test8;
    hide Set8;
    hide Clear8;
    hide Test32;
    hide Set32;
    hide Clear32;
    hide Byte0;
    hide Byte1;
    hide Byte2;
    hide Byte3;
    var a, b, c, d := s[4 * w], s[4 * w + 1], s[4 * w + 2], s[4 * w + 3];
    TestByte0(a, b, c, d, k);
    SetByte0(a, b, c, d, k);
    ClearByte0(a, b, c, d, k);
    WordBytes(Set8(a, k), b, c, d);
    WordBytes(Clear8(a, k), b, c, d);
  }

  lemma At1(s: seq<bv8>, w: nat, k: nat)
    requires 4 * w + 4 <= |s| && k < 8
    ensures Test32(WordAt(s, w), k + 8) <==> Test8(s[4 * w + 1], k)
    ensures PutWord(s, w, Set32(WordAt(s, w), k + 8)) == s[4 * w + 1 := Set8(s[4 * w + 1], k)]
    ensures PutWord(s, w, Clear32(WordAt(s, w), k + 8)) == s[4 * w + 1 := Clear8(s[4 * w + 1], k)]
  {
    hide Word;
    hide Test8;
    hide Set8;
    hide Clear8;
    hide Test32;
    hide Set32;
    hide Clear32;
    hide Byte0;
    hide Byte1;
    hide Byte2;
    hide Byte3;
    var a, b, c, d := s[4 * w], s[4 * w + 1], s[4 * w + 2], s[4 * w + 3];
    TestByte1(a, b, c, d, k);
    SetByte1(a, b, c, d, k);
    ClearByte1(a, b, c, d, k);
    WordBytes(a, Set8(b, k), c, d);
    WordBytes(a, Clear8(b, k), c, d);
  }

  lemma At2(s: seq<bv8>, w: nat, k: nat)
    requires 4 * w + 4 <= |s| && k < 8
    ensures Test32(WordAt(s, w), k + 16) <==> Test8(s[4 * w + 2], k)
    ensures PutWord(s, w, Set32(WordAt(s, w), k + 16)) == s[4 * w + 2 := Set8(s[4 * w + 2], k)]
    ensures PutWord(s, w, Clear32(WordAt(s, w), k + 16)) == s[4 * w + 2 := Clear8(s[4 * w + 2], k)]
  {
    hide Word;
    hide Test8;
    hide Set8;
    hide Clear8;
    hide Test32;
    hide Set32;
    hide Clear32;
    hide Byte0;
    hide Byte1;
    hide Byte2;
    hide Byte3;
    var a, b, c, d := s[4 * w], s[4 * w + 1], s[4 * w + 2], s[4 * w + 3];
    TestByte2(a, b, c, d, k);
    SetByte2(a, b, c, d, k);
    ClearByte2(a, b, c, d, k);
    WordBytes(a, b, Set8(c, k), d);
    WordBytes(a, b, Clear8(c, k), d);
  }

  lemma At3(s: seq<bv8>, w: nat, k: nat)
    requires 4 * w + 4 <= |s| && k < 8
    ensures Test32(WordAt(s, w), k + 24) <==> Test8(s[4 * w + 3], k)
    ensures PutWord(s, w, Set32(WordAt(s, w), k + 24)) == s[4 * w + 3 := Set8(s[4 * w + 3], k)]
    ensures PutWord(s, w, Clear32(WordAt(s, w), k + 24)) == s[4 * w + 3 := Clear8(s[4 * w + 3], k)]
  {
    hide Word;
    hide Test8;
    hide Set8;
    hide Clear8;
    hide Test32;
    hide Set32;
    hide Clear32;
    hide Byte0;
    hide Byte1;
    hide Byte2;
    hide Byte3;
    var a, b, c, d := s[4 * w], s[4 * w + 1], s[4 * w + 2], s[4 * w + 3];
    TestByte3(a, b, c, d, k);
    SetByte3(a, b, c, d, k);
    ClearByte3(a, b, c, d, k);
    WordBytes(a, b, c, Set8(d, k));
    WordBytes(a, b, c, Clear8(d, k));
  }

  lemma WordIndex(n: nat) returns (w: nat, q: nat, k: nat)
    ensures q < 4 && k < 8 && n / 32 == w && n % 32 == k + 8 * q && n / 8 == 4 * w + q && n % 8 == k
  {
    w, q, k := n / 32, n % 32 / 8, n % 8;
  }

  /** Testing, setting and clearing a bit through words is the same as through bytes. */
  lemma WordIsBytes(s: seq<bv8>, n: nat)
    requires 4 * (n / 32) + 4 <= |s|
    ensures Test32(WordAt(s, n / 32), n % 32) <==> Bit(s, n)
    ensures PutWord(s, n / 32, Set32(WordAt(s, n / 32), n % 32)) == SetBit(s, n)
    ensures PutWord(s, n / 32, Clear32(WordAt(s, n / 32), n % 32)) == ClearBit(s, n)
  {
    hide Word;
    hide Test8;
    hide Set8;
    hide Clear8;
    hide Test32;
    hide Set32;
    hide Clear32;
    hide Byte0;
    hide Byte1;
    hide Byte2;
    hide Byte3;
    hide WordAt;
    hide PutWord;
    var w, q, k := WordIndex(n);
    if q == 0 {
      At0(s, w, k);
    } else if q == 1 {
      At1(s, w, k);
    } else if q == 2 {
      At2(s, w, k);
    } else {
      At3(s, w, k);
    }
  }
}
