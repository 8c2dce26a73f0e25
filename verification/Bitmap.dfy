/** Bit scans (include/bitops.h) and the 32-entry bitmap of a slab. */
module Bitmap {

  const ENTRIES: nat := 32

  function Mask8(k: nat): bv32
    requires k < 8
  {
    if k == 0 then 1 else if k == 1 then 2 else if k == 2 then 4 else if k == 3 then 8
    else if k == 4 then 16 else if k == 5 then 32 else if k == 6 then 64 else 128
  }

  /** The word with only bit `k` set. */
  function Mask(k: nat): bv32
    requires k < 32
  {
    if k < 8 then Mask8(k) else if k < 16 then Mask8(k - 8) << 8
    else if k < 24 then Mask8(k - 16) << 16 else Mask8(k - 24) << 24
  }

  /** Find first set, 1-based, 0 if there is none: bit `num - 1` is the lowest
      set bit of the word. */
  method GenericFfs(input: bv32) returns (num: nat)
    ensures num == 0 <==> input == 0
    ensures num > 0 ==> num <= 32 && Mask(num - 1) == input & (0 - input)
  {
    var word := input;
    num := 1;
    if word == 0 {
      return 0;
    }
    if word & 0xffff == 0 {
      num, word := num + 16, word >> 16;
    }
    if word & 0xff == 0 {
      num, word := num + 8, word >> 8;
    }
    if word & 0xf == 0 {
      num, word := num + 4, word >> 4;
    }
    if word & 0x3 == 0 {
      num, word := num + 2, word >> 2;
    }
    if word & 0x1 == 0 {
      num := num + 1;
    }
  }

  // ------------------------------------------------------------------
  // Bytes, held in words as C promotes them.

  type Byte = b: bv32 | b <= 0xFF witness 0

  /** Index of the lowest clear bit of a byte, 8 if all are set. */
  function LowestZero(b: Byte): (j: nat)
    ensures j <= 8
  {
    if b & 1 == 0 then 0 else if b & 2 == 0 then 1 else if b & 4 == 0 then 2 else if b & 8 == 0 then 3
    else if b & 16 == 0 then 4 else if b & 32 == 0 then 5 else if b & 64 == 0 then 6
    else if b & 128 == 0 then 7 else 8
  }

  /** Find first zero of a byte, 1-based, 0 if all bits are set. */
  method Ffz8(b: Byte) returns (num: nat)
    ensures num == if LowestZero(b) == 8 then 0 else LowestZero(b) + 1
  {
    num := GenericFfs(0xFF ^ b);
  }

  /** Find first zero of a byte that was promoted to an int: the bits above it
      are clear, so a full byte yields 9 and never 0. */
  method FfzInt(b: Byte) returns (num: nat)
    ensures num == LowestZero(b) + 1
  {
    num := GenericFfs(0xFFFF_FFFF ^ b);
  }

  predicate Bit(b: Byte, j: nat)
    requires j < 8
  {
    b & Mask8(j) != 0
  }

  function OrBit(b: Byte, j: nat): (r: Byte)
    requires j < 8
    ensures forall k :: 0 <= k < 8 ==> (Bit(r, k) <==> k == j || Bit(b, k))
  {
    b | Mask8(j)
  }

  function AndNotBit(b: Byte, j: nat): (r: Byte)
    requires j < 8
    ensures forall k :: 0 <= k < 8 ==> (Bit(r, k) <==> k != j && Bit(b, k))
  {
    b & (0xFF ^ Mask8(j))
  }

  lemma LowestZeroBit(b: Byte)
    ensures forall k :: 0 <= k < LowestZero(b) ==> Bit(b, k)
    ensures LowestZero(b) < 8 ==> !Bit(b, LowestZero(b))
  {
  }

  lemma FullByte(b: Byte)
    ensures b == 0xFF <==> forall k :: 0 <= k < 8 ==> Bit(b, k)
    ensures b == 0 <==> forall k :: 0 <= k < 8 ==> !Bit(b, k)
  {
    assert Bit(b, 0) == (b & 1 != 0) && Bit(b, 1) == (b & 2 != 0) && Bit(b, 2) == (b & 4 != 0) && Bit(b, 3) == (b & 8 != 0);
    assert Bit(b, 4) == (b & 16 != 0) && Bit(b, 5) == (b & 32 != 0) && Bit(b, 6) == (b & 64 != 0) && Bit(b, 7) == (b & 128 != 0);
  }

  // ------------------------------------------------------------------
  // The four bytes of a slab.

  type Bitmap = u: seq<Byte> | |u| == 4 witness [0, 0, 0, 0]

  const NONE: Bitmap := [0, 0, 0, 0]

  predicate Used(u: Bitmap, i: nat)
    requires i < ENTRIES
  {
    Bit(u[i / 8], i % 8)
  }

  function Mark(u: Bitmap, i: nat): (r: Bitmap)
    requires i < ENTRIES
    ensures forall k :: 0 <= k < ENTRIES ==> (Used(r, k) <==> k == i || Used(u, k))
  {
    u[i / 8 := OrBit(u[i / 8], i % 8)]
  }

  function Unmark(u: Bitmap, i: nat): (r: Bitmap)
    requires i < ENTRIES
    ensures forall k :: 0 <= k < ENTRIES ==> (Used(r, k) <==> k != i && Used(u, k))
  {
    u[i / 8 := AndNotBit(u[i / 8], i % 8)]
  }

  predicate IsFull(u: Bitmap) {
    forall b :: 0 <= b < 4 ==> u[b] == 0xFF
  }

  predicate IsEmpty(u: Bitmap) {
    forall b :: 0 <= b < 4 ==> u[b] == 0
  }

  /** Entry `8 * b + k` is bit `k` of byte `b`. */
  lemma EntryBit(u: Bitmap, b: nat, k: nat)
    requires b < 4 && k < 8
    ensures Used(u, 8 * b + k) == Bit(u[b], k)
  {
    assert (8 * b + k) / 8 == b && (8 * b + k) % 8 == k;
  }

  lemma FullMeansUsed(u: Bitmap)
    ensures IsFull(u) <==> forall i :: 0 <= i < ENTRIES ==> Used(u, i)
  {
    hide Bit;
    if IsFull(u) {
      forall i | 0 <= i < ENTRIES ensures Used(u, i) {
        FullByte(u[i / 8]);
      }
    }
    if forall i :: 0 <= i < ENTRIES ==> Used(u, i) {
      forall b | 0 <= b < 4 ensures u[b] == 0xFF {
        forall k | 0 <= k < 8 ensures Bit(u[b], k) {
          EntryBit(u, b, k);
        }
        FullByte(u[b]);
      }
    }
  }

  lemma EmptyMeansUnused(u: Bitmap)
    ensures IsEmpty(u) <==> forall i :: 0 <= i < ENTRIES ==> !Used(u, i)
  {
    hide Bit;
    if IsEmpty(u) {
      forall i | 0 <= i < ENTRIES ensures !Used(u, i) {
        FullByte(u[i / 8]);
      }
    }
    if forall i :: 0 <= i < ENTRIES ==> !Used(u, i) {
      forall b | 0 <= b < 4 ensures u[b] == 0 {
        forall k | 0 <= k < 8 ensures !Bit(u[b], k) {
          EntryBit(u, b, k);
        }
        FullByte(u[b]);
      }
    }
  }

  /** Entry the byte-by-byte scan from byte `b` on stops at; ENTRIES if none. */
  function ScanFrom(u: Bitmap, b: nat): (i: nat)
    requires b <= 4
    ensures i <= ENTRIES
    decreases 4 - b
  {
    if b == 4 then ENTRIES
    else if LowestZero(u[b]) < 8 then 8 * b + LowestZero(u[b])
    else ScanFrom(u, b + 1)
  }

  /** The scan finds the lowest free entry if there is one. */
  lemma {:induction false} ScanFinds(u: Bitmap, b: nat)
    requires b <= 4
    ensures var i := ScanFrom(u, b);
      && (i < ENTRIES ==> !Used(u, i))
      && (forall k :: 8 * b <= k < i ==> Used(u, k))
    decreases 4 - b
  {
    if b < 4 {
      LowestZeroBit(u[b]);
      hide Bit;
      if LowestZero(u[b]) == 8 {
        ScanFinds(u, b + 1);
        forall k | 8 * b <= k < 8 * b + 8 ensures Used(u, k) {
          assert k / 8 == b && k % 8 == k - 8 * b;
        }
      } else {
        var i := ScanFrom(u, b);
        assert i / 8 == b && i % 8 == LowestZero(u[b]);
        forall k | 8 * b <= k < i ensures Used(u, k) {
          assert k / 8 == b && k % 8 == k - 8 * b;
        }
      }
    }
  }

  /** The do-while of the allocation, with the byte-wide scan. */
  method Scan(u: Bitmap) returns (i: nat)
    requires !IsFull(u)
    ensures i < ENTRIES && i == ScanFrom(u, 0)
  {
    var b := 0;
    var j := Ffz8(u[0]);
    while j == 0
      invariant 0 <= b < 4
      invariant j == if LowestZero(u[b]) == 8 then 0 else LowestZero(u[b]) + 1
      invariant ScanFrom(u, 0) == ScanFrom(u, b)
      invariant forall c :: 0 <= c < b ==> u[c] == 0xFF
      decreases 4 - b
    {
      FullFromScan(u[b]);
      b := b + 1;
      j := Ffz8(u[b]);
    }
    i := b * 8 + (j - 1);
  }

  lemma FullFromScan(b: Byte)
    ensures LowestZero(b) == 8 <==> b == 0xFF
  {
  }

  /** With the int-wide scan the first byte always decides: the entry found is
      free and gets marked exactly when that byte is not full. */
  lemma IntWideScanIff(u: Bitmap)
    ensures var i := LowestZero(u[0]);
      var marked: Bitmap := if i < 8 then u[0 := OrBit(u[0], i)] else u;
      (!Used(u, i) && Used(marked, i)) <==> u[0] != 0xFF
  {
    FullFromScan(u[0]);
    LowestZeroBit(u[0]);
  }
}
