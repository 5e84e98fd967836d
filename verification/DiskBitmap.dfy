/** The free-block bitmap on disk (balloc and bfree of kern/bio.c): one bit per block of the file system, packed
    eight to a byte, in consecutive bitmap blocks. */
module DiskBitmap {
  import opened Params

  const BITPB: nat := BLKSIZE * 8

  /** The bytes of each bitmap block. */
  type Bitmap = seq<seq<bv8>>

  /** 1 << k */
  function Mask(k: nat): bv8 {
    match k
    case 0 => 1
    case 1 => 2
    case 2 => 4
    case 3 => 8
    case 4 => 16
    case 5 => 32
    case 6 => 64
    case _ => 128
  }

  predicate Tests(x: bv8, k: nat) {
    x & Mask(k) != 0
  }

  /** The byte with bit k set or cleared. */
  function Written(x: bv8, k: nat, on: bool): bv8 {
    if on then x | Mask(k) else x & !Mask(k)
  }

  /** Room for the bits of `size` blocks. */
  predicate Covers(bm: Bitmap, size: nat) {
    size <= |bm| * BITPB && forall i :: 0 <= i < |bm| ==> |bm[i]| == BLKSIZE
  }

  predicate Bit(bm: Bitmap, size: nat, b: nat)
    requires Covers(bm, size) && b < size
  {
    Tests(bm[b / BITPB][b % BITPB / 8], b % BITPB % 8)
  }

  ghost function Used(bm: Bitmap, size: nat): set<nat>
    requires Covers(bm, size)
  {
    set b | 0 <= b < size && Bit(bm, size, b)
  }

  lemma UsedBelow(bm: Bitmap, size: nat)
    requires Covers(bm, size)
    ensures forall b :: b in Used(bm, size) ==> b < size
  {
  }

  function PutByte(bm: Bitmap, i: nat, j: nat, x: bv8): Bitmap
    requires i < |bm| && j < |bm[i]|
  {
    bm[i := bm[i][j := x]]
  }

  lemma WrittenBit(x: bv8, j: nat, on: bool, k: nat)
    requires j < 8 && k < 8
    ensures Tests(Written(x, j, on), k) <==> if k == j then on else Tests(x, k)
  {
    var m, n := Mask(j), Mask(k);
    OneBit(j);
    OneBit(k);
    if j != k {
      TwoBits(j, k);
    }
    MaskLaws(x, m, n);
  }

  lemma OneBit(j: nat)
    requires j < 8
    ensures Mask(j) in {1, 2, 4, 8, 16, 32, 64, 128}
  {
  }

  lemma TwoBits(j: nat, k: nat)
    requires j < 8 && k < 8 && j != k
    ensures Mask(j) != Mask(k)
  {
  }

  lemma MaskLaws(x: bv8, m: bv8, n: bv8)
    requires m in {1, 2, 4, 8, 16, 32, 64, 128} && n in {1, 2, 4, 8, 16, 32, 64, 128}
    ensures (x | m) & n != 0 <==> m == n || x & n != 0
    ensures (x & !m) & n != 0 <==> m != n && x & n != 0
  {
  }

  /** The byte of block b with its bit set or cleared. */
  function Marked(bm: Bitmap, size: nat, b: nat, on: bool): Bitmap
    requires Covers(bm, size) && b < size
  {
    var i, j := b / BITPB, b % BITPB / 8;
    PutByte(bm, i, j, Written(bm[i][j], b % BITPB % 8, on))
  }

  /** Two blocks with the same byte and bit are the same. */
  lemma SameSpot(b: nat, c: nat)
    ensures b / BITPB == c / BITPB && b % BITPB / 8 == c % BITPB / 8 && b % BITPB % 8 == c % BITPB % 8 <==> b == c
  {
  }

  lemma SpotFits(bm: Bitmap, size: nat, b: nat)
    requires Covers(bm, size) && b < size
    ensures b / BITPB < |bm| && b % BITPB / 8 < BLKSIZE == |bm[b / BITPB]| && b % BITPB % 8 < 8
  {
  }

  lemma PutByteAt(bm: Bitmap, i: nat, j: nat, x: bv8, i': nat, j': nat)
    requires i < |bm| && j < |bm[i]| && i' < |bm| && j' < |bm[i']|
    ensures var r := PutByte(bm, i, j, x);
            && |r| == |bm| && (forall m :: 0 <= m < |bm| ==> |r[m]| == |bm[m]|)
            && r[i'][j'] == if i == i' && j == j' then x else bm[i'][j']
  {
  }

  /** Only that bit changes. */
  lemma MarkedBit(bm: Bitmap, size: nat, b: nat, on: bool, c: nat)
    requires Covers(bm, size) && b < size && c < size
    ensures Covers(Marked(bm, size, b, on), size)
    ensures Bit(Marked(bm, size, b, on), size, c) <==> if c == b then on else Bit(bm, size, c)
  {
    hide Tests, Written, PutByte;
    SpotFits(bm, size, b);
    SpotFits(bm, size, c);
    SameSpot(b, c);
    var i, j, k := b / BITPB, b % BITPB / 8, b % BITPB % 8;
    var x := Written(bm[i][j], k, on);
    PutByteAt(bm, i, j, x, c / BITPB, c % BITPB / 8);
    WrittenBit(bm[i][j], k, on, c % BITPB % 8);
  }

  lemma MarkedUsed(bm: Bitmap, size: nat, b: nat, on: bool)
    requires Covers(bm, size) && b < size
    ensures Covers(Marked(bm, size, b, on), size) && |Marked(bm, size, b, on)| == |bm|
    ensures Used(Marked(bm, size, b, on), size) == if on then Used(bm, size) + {b} else Used(bm, size) - {b}
  {
    MarkedBit(bm, size, b, on, b);
    forall c | 0 <= c < size
      ensures Bit(Marked(bm, size, b, on), size, c) <==> if c == b then on else Bit(bm, size, c)
    {
      MarkedBit(bm, size, b, on, c);
    }
  }

  /** The search of balloc: bitmap block by bitmap block, bit by bit, for the first clear bit; 0 when there is
      none (block 0 is the boot block and never free). */
  method FirstClear(bm: Bitmap, size: nat) returns (b: nat)
    requires Covers(bm, size) && 0 < size && Bit(bm, size, 0)
    ensures b < size
    ensures b != 0 ==> !Bit(bm, size, b) && forall c :: 0 <= c < b ==> Bit(bm, size, c)
    ensures b == 0 ==> forall c :: 0 <= c < size ==> Bit(bm, size, c)
  {
    hide Bit, Covers, Mask;
    var i := 0;
    while i < size
      invariant i % BITPB == 0 && forall c :: 0 <= c < i && c < size ==> Bit(bm, size, c)
    {
      InPlace(bm, size, i, 0);
      var data := bm[i / BITPB];
      var j := 0;
      while j < BITPB && i + j < size
        invariant 0 <= j <= BITPB && forall c :: 0 <= c < i + j && c < size ==> Bit(bm, size, c)
      {
        var byteidx := j / 8;
        var byter := Mask(j % 8);
        InPlace(bm, size, i, j);
        if data[byteidx] & byter == 0 {
          return i + j;
        }
        j := j + 1;
      }
      Next(i);
      i := i + BITPB;
    }
    return 0;
  }

  /** Where the loops find the bit of block i + j. */
  lemma InPlace(bm: Bitmap, size: nat, i: nat, j: nat)
    requires Covers(bm, size) && i % BITPB == 0 && j < BITPB && i + j < size
    ensures i / BITPB < |bm| && |bm[i / BITPB]| == BLKSIZE && j / 8 < BLKSIZE
    ensures Bit(bm, size, i + j) <==> bm[i / BITPB][j / 8] & Mask(j % 8) != 0
  {
    Position(i, j);
    hide Mask;
  }

  lemma Next(i: nat)
    requires i % BITPB == 0
    ensures (i + BITPB) % BITPB == 0
  {
  }

  lemma Position(i: nat, j: nat)
    requires i % BITPB == 0 && j < BITPB
    ensures (i + j) / BITPB == i / BITPB && (i + j) % BITPB == j
  {
  }

  lemma BitUsed(bm: Bitmap, size: nat, b: nat)
    requires Covers(bm, size) && b < size
    ensures Bit(bm, size, b) <==> b in Used(bm, size)
    ensures b / BITPB < |bm|
  {
  }

  /** The answer of the search in terms of the set of taken blocks. */
  lemma FirstFree(bm: Bitmap, size: nat, b: nat)
    requires Covers(bm, size) && b < size
    requires if b != 0 then !Bit(bm, size, b) else forall c :: 0 <= c < size ==> Bit(bm, size, c)
    ensures if b != 0 then b !in Used(bm, size) else forall c :: 0 <= c < size ==> c in Used(bm, size)
    ensures b / BITPB < |bm|
  {
  }
}
