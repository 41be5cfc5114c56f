/** Coordinates, bit layout and colour-key layout of a 32 x 32 x 32 voxel chunk.

    A chunk stores one 32-bit row word per (y, z) pair; voxel x of that row is
    the bit selected by `0x8000_0000 >> x` (most significant bit first). The
    colour of a voxel is filed under a 16-bit key that enumerates the voxels
    in the same order as the bits. */
module Layout {

  /** Number of voxels along each edge of a chunk. */
  const ChunkSize := 32

  /** One byte, the colour stored per voxel. */
  newtype Byte = x: int | 0 <= x < 0x100

  /** A 16-bit unsigned integer, the type of the colour-table keys. */
  newtype Key = x: int | 0 <= x < 0x1_0000

  datatype Option<T> = None | Some(value: T)

  /** The six face orientations of a voxel. */
  datatype Direction = Up | Down | Left | Right | Front | Back

  /** The three scanning axes of a chunk. */
  datatype Axis = X | Y | Z

  /** A voxel coordinate; only coordinates inside the chunk name voxels. */
  datatype Pos = Pos(x: int, y: int, z: int)
  {
    predicate InChunk() {
      0 <= x < ChunkSize && 0 <= y < ChunkSize && 0 <= z < ChunkSize
    }
  }

  /** The mask of voxel x within its row word: bit 31 - x, so voxel 0 is the
      most significant bit. */
  function Mask(x: int): bv32
    requires 0 <= x < 32
  {
    0x8000_0000 >> x
  }

  /** Whether word w shares a set bit with mask m. */
  predicate Has(w: bv32, m: bv32) {
    w & m != 0
  }

  /** Whether voxel x of row word w is occupied. */
  predicate Bit(w: bv32, x: int)
    requires 0 <= x < 32
  {
    Has(w, Mask(x))
  }

  predicate Nonzero(m: bv32) {
    m != 0
  }

  predicate Disjoint(m: bv32, m': bv32) {
    m & m' == 0
  }

  /** Index of the row word that holds the voxels (_, y, z). */
  function WordIndex(y: int, z: int): (i: int)
    requires 0 <= y < 32 && 0 <= z < 32
    ensures 0 <= i < 1024
  {
    z * 32 + (31 - y)
  }

  /** The word index determines the row: z is its quotient by 32 and 31 - y
      its remainder, so distinct rows never share a word. */
  lemma WordIndexSplit(y: int, z: int)
    requires 0 <= y < 32 && 0 <= z < 32
    ensures WordIndex(y, z) / 32 == z && WordIndex(y, z) % 32 == 31 - y
  {
  }

  /** The key of a voxel's entry in the colour table, computed as `set` and
      `get_color` do and then truncated to 16 bits. The truncation never bites:
      the key is the global bit number (row word index times 32, plus x), so it
      is below 32768, and distinct voxels get distinct keys. */
  function ColorKey(p: Pos): (k: Key)
    requires p.InChunk()
    ensures k < 0x8000
  {
    ((p.z * 32 * 32 + (31 - p.y) * 32 + p.x) % 0x1_0000) as Key
  }

  /** The colour key splits into the row word index and x. */
  lemma ColorKeySplit(p: Pos)
    requires p.InChunk()
    ensures ColorKey(p) as int / 32 == WordIndex(p.y, p.z) && ColorKey(p) as int % 32 == p.x
  {
    var i := WordIndex(p.y, p.z);
    assert p.z * 32 * 32 + (31 - p.y) * 32 + p.x == i * 32 + p.x;
  }

  /** Row word w with voxel x set (state) or cleared (not state), as `set`
      updates it. */
  function SetBit(w: bv32, x: int, state: bool): (r: bv32)
    requires 0 <= x < 32
    ensures Bit(r, x) == state
  {
    if state then
      InsertSame(w, x);
      w | Mask(x)
    else
      RemoveSame(w, x);
      w & (0xFFFF_FFFF ^ Mask(x))
  }

  lemma MaskNonzero(x: int)
    requires 0 <= x < 32
    ensures Nonzero(Mask(x))
  {
  }

  lemma MaskOrdered(x: int, x': int)
    requires 0 <= x < x' < 32
    ensures Disjoint(Mask(x), Mask(x'))
  {
  }

  lemma DisjointSymmetric(m: bv32, m': bv32)
    requires Disjoint(m, m')
    ensures Disjoint(m', m)
  {
  }

  /** The masks of two different voxels of a row never overlap. */
  lemma MaskDisjoint(x: int, x': int)
    requires 0 <= x < 32 && 0 <= x' < 32 && x != x'
    ensures Disjoint(Mask(x), Mask(x'))
  {
    if x < x' {
      MaskOrdered(x, x');
    } else {
      MaskOrdered(x', x);
      DisjointSymmetric(Mask(x'), Mask(x));
    }
  }

  lemma OrSelfWord(w: bv32, m: bv32)
    requires m != 0
    ensures (w | m) & m == m
  {
  }

  lemma OrOtherWord(w: bv32, m: bv32, m': bv32)
    requires m & m' == 0
    ensures (w | m) & m' == w & m'
  {
  }

  lemma AndNotSelfWord(w: bv32, m: bv32)
    ensures (w & (0xFFFF_FFFF ^ m)) & m == 0
  {
  }

  lemma AndNotOtherWord(w: bv32, m: bv32, m': bv32)
    requires m & m' == 0
    ensures (w & (0xFFFF_FFFF ^ m)) & m' == w & m'
  {
  }

  lemma HasOrSelf(w: bv32, m: bv32)
    requires Nonzero(m)
    ensures Has(w | m, m)
  {
    OrSelfWord(w, m);
  }

  lemma HasOrOther(w: bv32, m: bv32, m': bv32)
    requires Disjoint(m, m')
    ensures Has(w | m, m') == Has(w, m')
  {
    OrOtherWord(w, m, m');
  }

  lemma HasAndNotSelf(w: bv32, m: bv32)
    ensures !Has(w & (0xFFFF_FFFF ^ m), m)
  {
    AndNotSelfWord(w, m);
  }

  lemma HasAndNotOther(w: bv32, m: bv32, m': bv32)
    requires Disjoint(m, m')
    ensures Has(w & (0xFFFF_FFFF ^ m), m') == Has(w, m')
  {
    AndNotOtherWord(w, m, m');
  }

  /** Or-ing in the mask of voxel x occupies voxel x ... */
  lemma InsertSame(w: bv32, x: int)
    requires 0 <= x < 32
    ensures Bit(w | Mask(x), x)
  {
    MaskNonzero(x);
    HasOrSelf(w, Mask(x));
  }

  /** ... and leaves every other voxel of the row alone. */
  lemma InsertOther(w: bv32, x: int, x': int)
    requires 0 <= x < 32 && 0 <= x' < 32 && x != x'
    ensures Bit(w | Mask(x), x') == Bit(w, x')
  {
    MaskDisjoint(x, x');
    HasOrOther(w, Mask(x), Mask(x'));
  }

  /** And-ing with the complement of the mask of voxel x empties voxel x ... */
  lemma RemoveSame(w: bv32, x: int)
    requires 0 <= x < 32
    ensures !Bit(w & (0xFFFF_FFFF ^ Mask(x)), x)
  {
    HasAndNotSelf(w, Mask(x));
  }

  /** ... and leaves every other voxel of the row alone. */
  lemma RemoveOther(w: bv32, x: int, x': int)
    requires 0 <= x < 32 && 0 <= x' < 32 && x != x'
    ensures Bit(w & (0xFFFF_FFFF ^ Mask(x)), x') == Bit(w, x')
  {
    MaskDisjoint(x, x');
    HasAndNotOther(w, Mask(x), Mask(x'));
  }

  /** SetBit leaves the other 31 voxels of the row alone. */
  lemma SetBitOther(w: bv32, x: int, state: bool, x': int)
    requires 0 <= x < 32 && 0 <= x' < 32 && x != x'
    ensures Bit(SetBit(w, x, state), x') == Bit(w, x')
  {
    if state {
      InsertOther(w, x, x');
    } else {
      RemoveOther(w, x, x');
    }
  }

  lemma OrWord(u: bv32, v: bv32, m: bv32)
    ensures (u | v) & m == (u & m) | (v & m)
  {
  }

  lemma OrNonzero(a: bv32, b: bv32)
    ensures (a | b != 0) == (a != 0 || b != 0)
  {
  }

  lemma HasOr(u: bv32, v: bv32, m: bv32)
    ensures Has(u | v, m) == (Has(u, m) || Has(v, m))
  {
    OrWord(u, v, m);
    OrNonzero(u & m, v & m);
  }

  /** A voxel of u | v is occupied when it is occupied in u or in v. */
  lemma OrBit(u: bv32, v: bv32, b: int)
    requires 0 <= b < 32
    ensures Bit(u | v, b) == (Bit(u, b) || Bit(v, b))
  {
    HasOr(u, v, Mask(b));
  }

  /** No voxel of the zero word is occupied. */
  lemma ZeroBit(b: int)
    requires 0 <= b < 32
    ensures !Bit(0, b)
  {
  }

  /** No voxel of the zero word is occupied, for all voxels at once. */
  lemma ZeroBits()
    ensures forall b :: 0 <= b < 32 ==> !Bit(0, b)
  {
    forall b | 0 <= b < 32
      ensures !Bit(0, b)
    {
      ZeroBit(b);
    }
  }

  /** Every voxel of the all-ones word is occupied. */
  lemma FullBit(b: int)
    requires 0 <= b < 32
    ensures Bit(0xFFFF_FFFF, b)
  {
    MaskNonzero(b);
  }

  /** The 32 masks, written out. The solver does not evaluate a shift by a
      symbolic amount; these constants let a proof split on the amount. */
  lemma MaskValues()
    ensures Mask(0) == 0x8000_0000
    ensures Mask(1) == 0x4000_0000
    ensures Mask(2) == 0x2000_0000
    ensures Mask(3) == 0x1000_0000
    ensures Mask(4) == 0x0800_0000
    ensures Mask(5) == 0x0400_0000
    ensures Mask(6) == 0x0200_0000
    ensures Mask(7) == 0x0100_0000
    ensures Mask(8) == 0x0080_0000
    ensures Mask(9) == 0x0040_0000
    ensures Mask(10) == 0x0020_0000
    ensures Mask(11) == 0x0010_0000
    ensures Mask(12) == 0x0008_0000
    ensures Mask(13) == 0x0004_0000
    ensures Mask(14) == 0x0002_0000
    ensures Mask(15) == 0x0001_0000
    ensures Mask(16) == 0x0000_8000
    ensures Mask(17) == 0x0000_4000
    ensures Mask(18) == 0x0000_2000
    ensures Mask(19) == 0x0000_1000
    ensures Mask(20) == 0x0000_0800
    ensures Mask(21) == 0x0000_0400
    ensures Mask(22) == 0x0000_0200
    ensures Mask(23) == 0x0000_0100
    ensures Mask(24) == 0x0000_0080
    ensures Mask(25) == 0x0000_0040
    ensures Mask(26) == 0x0000_0020
    ensures Mask(27) == 0x0000_0010
    ensures Mask(28) == 0x0000_0008
    ensures Mask(29) == 0x0000_0004
    ensures Mask(30) == 0x0000_0002
    ensures Mask(31) == 0x0000_0001
  {
  }

  /** Shifting left by k brings the bit under mask k to the top, for each of
      the 32 shift amounts, written out for the same reason as MaskValues. */
  lemma ShiftValues(v: bv32)
    ensures ((v << 0) & 0x8000_0000 != 0) == (v & 0x8000_0000 != 0)
    ensures ((v << 1) & 0x8000_0000 != 0) == (v & 0x4000_0000 != 0)
    ensures ((v << 2) & 0x8000_0000 != 0) == (v & 0x2000_0000 != 0)
    ensures ((v << 3) & 0x8000_0000 != 0) == (v & 0x1000_0000 != 0)
    ensures ((v << 4) & 0x8000_0000 != 0) == (v & 0x0800_0000 != 0)
    ensures ((v << 5) & 0x8000_0000 != 0) == (v & 0x0400_0000 != 0)
    ensures ((v << 6) & 0x8000_0000 != 0) == (v & 0x0200_0000 != 0)
    ensures ((v << 7) & 0x8000_0000 != 0) == (v & 0x0100_0000 != 0)
    ensures ((v << 8) & 0x8000_0000 != 0) == (v & 0x0080_0000 != 0)
    ensures ((v << 9) & 0x8000_0000 != 0) == (v & 0x0040_0000 != 0)
    ensures ((v << 10) & 0x8000_0000 != 0) == (v & 0x0020_0000 != 0)
    ensures ((v << 11) & 0x8000_0000 != 0) == (v & 0x0010_0000 != 0)
    ensures ((v << 12) & 0x8000_0000 != 0) == (v & 0x0008_0000 != 0)
    ensures ((v << 13) & 0x8000_0000 != 0) == (v & 0x0004_0000 != 0)
    ensures ((v << 14) & 0x8000_0000 != 0) == (v & 0x0002_0000 != 0)
    ensures ((v << 15) & 0x8000_0000 != 0) == (v & 0x0001_0000 != 0)
    ensures ((v << 16) & 0x8000_0000 != 0) == (v & 0x0000_8000 != 0)
    ensures ((v << 17) & 0x8000_0000 != 0) == (v & 0x0000_4000 != 0)
    ensures ((v << 18) & 0x8000_0000 != 0) == (v & 0x0000_2000 != 0)
    ensures ((v << 19) & 0x8000_0000 != 0) == (v & 0x0000_1000 != 0)
    ensures ((v << 20) & 0x8000_0000 != 0) == (v & 0x0000_0800 != 0)
    ensures ((v << 21) & 0x8000_0000 != 0) == (v & 0x0000_0400 != 0)
    ensures ((v << 22) & 0x8000_0000 != 0) == (v & 0x0000_0200 != 0)
    ensures ((v << 23) & 0x8000_0000 != 0) == (v & 0x0000_0100 != 0)
    ensures ((v << 24) & 0x8000_0000 != 0) == (v & 0x0000_0080 != 0)
    ensures ((v << 25) & 0x8000_0000 != 0) == (v & 0x0000_0040 != 0)
    ensures ((v << 26) & 0x8000_0000 != 0) == (v & 0x0000_0020 != 0)
    ensures ((v << 27) & 0x8000_0000 != 0) == (v & 0x0000_0010 != 0)
    ensures ((v << 28) & 0x8000_0000 != 0) == (v & 0x0000_0008 != 0)
    ensures ((v << 29) & 0x8000_0000 != 0) == (v & 0x0000_0004 != 0)
    ensures ((v << 30) & 0x8000_0000 != 0) == (v & 0x0000_0002 != 0)
    ensures ((v << 31) & 0x8000_0000 != 0) == (v & 0x0000_0001 != 0)
  {
  }

  /** Shifting row word v left by n brings voxel n to the top bit. The
      empty branches are a case split on n: in each one n is a constant, so
      the written-out facts of ShiftValues and MaskValues apply. */
  lemma TopBit(v: bv32, n: int)
    requires 0 <= n < 32
    ensures ((v << n) & 0x8000_0000 != 0) == Bit(v, n)
  {
    ShiftValues(v);
    MaskValues();
    if n == 0 {
    }     else if n == 1 {
    }     else if n == 2 {
    }     else if n == 3 {
    }     else if n == 4 {
    }     else if n == 5 {
    }     else if n == 6 {
    }     else if n == 7 {
    }     else if n == 8 {
    }     else if n == 9 {
    }     else if n == 10 {
    }     else if n == 11 {
    }     else if n == 12 {
    }     else if n == 13 {
    }     else if n == 14 {
    }     else if n == 15 {
    }     else if n == 16 {
    }     else if n == 17 {
    }     else if n == 18 {
    }     else if n == 19 {
    }     else if n == 20 {
    }     else if n == 21 {
    }     else if n == 22 {
    }     else if n == 23 {
    }     else if n == 24 {
    }     else if n == 25 {
    }     else if n == 26 {
    }     else if n == 27 {
    }     else if n == 28 {
    }     else if n == 29 {
    }     else if n == 30 {
    } else {
      assert n == 31;
    }
  }

  lemma TopOnly(u: bv32)
    ensures u & 0x8000_0000 == 0 || u & 0x8000_0000 == 0x8000_0000
  {
  }

  /** One step of the X cross-section: voxel n of the row word v, moved to
      voxel z. It is the mask of voxel z when voxel n of v is occupied, and
      zero otherwise. */
  function Extracted(v: bv32, n: int, z: int): (r: bv32)
    requires 0 <= n < 32 && 0 <= z < 32
    ensures r == if Bit(v, n) then Mask(z) else 0
  {
    TopBit(v, n);
    TopOnly(v << n);
    ((v << n) & 0x8000_0000) >> z
  }

  /** Voxel z of the extraction is voxel n of v ... */
  lemma ExtractedSame(v: bv32, n: int, z: int)
    requires 0 <= n < 32 && 0 <= z < 32
    ensures Bit(Extracted(v, n, z), z) == Bit(v, n)
  {
    if Bit(v, n) {
      FullBitOfMask(z);
    } else {
      ZeroBit(z);
    }
  }

  /** ... and its other voxels are empty. */
  lemma ExtractedOther(v: bv32, n: int, z: int, b: int)
    requires 0 <= n < 32 && 0 <= z < 32 && 0 <= b < 32 && b != z
    ensures !Bit(Extracted(v, n, z), b)
  {
    if Bit(v, n) {
      MaskDisjoint(z, b);
      DisjointHasNot(Mask(z), Mask(b));
    } else {
      ZeroBit(b);
    }
  }

  /** The mask of voxel z has voxel z occupied. */
  lemma FullBitOfMask(z: int)
    requires 0 <= z < 32
    ensures Bit(Mask(z), z)
  {
    MaskNonzero(z);
    HasSelf(Mask(z));
  }

  lemma HasSelf(m: bv32)
    requires Nonzero(m)
    ensures Has(m, m)
  {
  }

  lemma DisjointHasNot(m: bv32, m': bv32)
    requires Disjoint(m, m')
    ensures !Has(m, m')
  {
  }

  /** Two words whose 32 voxels agree. */
  predicate SameBits(w: bv32, v: bv32) {
    forall b :: 0 <= b < 32 ==> Bit(w, b) == Bit(v, b)
  }

  /** A word is determined by its 32 voxels. The four Agree lemmas below
      instantiate SameBits at each of the 32 written-out masks, so that the
      final step compares constants, which the solver handles directly. */
  lemma WordFromBits(w: bv32, v: bv32)
    requires SameBits(w, v)
    ensures w == v
  {
    AgreeHigh(w, v);
    AgreeUpperMiddle(w, v);
    AgreeLowerMiddle(w, v);
    AgreeLow(w, v);
    BitsAgree(w, v);
  }

  lemma AgreeHigh(w: bv32, v: bv32)
    requires SameBits(w, v)
    ensures Has(w, 0x8000_0000) == Has(v, 0x8000_0000)
    ensures Has(w, 0x4000_0000) == Has(v, 0x4000_0000)
    ensures Has(w, 0x2000_0000) == Has(v, 0x2000_0000)
    ensures Has(w, 0x1000_0000) == Has(v, 0x1000_0000)
    ensures Has(w, 0x0800_0000) == Has(v, 0x0800_0000)
    ensures Has(w, 0x0400_0000) == Has(v, 0x0400_0000)
    ensures Has(w, 0x0200_0000) == Has(v, 0x0200_0000)
    ensures Has(w, 0x0100_0000) == Has(v, 0x0100_0000)
  {
    assert Mask(0) == 0x8000_0000 && Bit(w, 0) == Bit(v, 0);
    assert Mask(1) == 0x4000_0000 && Bit(w, 1) == Bit(v, 1);
    assert Mask(2) == 0x2000_0000 && Bit(w, 2) == Bit(v, 2);
    assert Mask(3) == 0x1000_0000 && Bit(w, 3) == Bit(v, 3);
    assert Mask(4) == 0x0800_0000 && Bit(w, 4) == Bit(v, 4);
    assert Mask(5) == 0x0400_0000 && Bit(w, 5) == Bit(v, 5);
    assert Mask(6) == 0x0200_0000 && Bit(w, 6) == Bit(v, 6);
    assert Mask(7) == 0x0100_0000 && Bit(w, 7) == Bit(v, 7);
  }

  lemma AgreeUpperMiddle(w: bv32, v: bv32)
    requires SameBits(w, v)
    ensures Has(w, 0x0080_0000) == Has(v, 0x0080_0000)
    ensures Has(w, 0x0040_0000) == Has(v, 0x0040_0000)
    ensures Has(w, 0x0020_0000) == Has(v, 0x0020_0000)
    ensures Has(w, 0x0010_0000) == Has(v, 0x0010_0000)
    ensures Has(w, 0x0008_0000) == Has(v, 0x0008_0000)
    ensures Has(w, 0x0004_0000) == Has(v, 0x0004_0000)
    ensures Has(w, 0x0002_0000) == Has(v, 0x0002_0000)
    ensures Has(w, 0x0001_0000) == Has(v, 0x0001_0000)
  {
    assert Mask(8) == 0x0080_0000 && Bit(w, 8) == Bit(v, 8);
    assert Mask(9) == 0x0040_0000 && Bit(w, 9) == Bit(v, 9);
    assert Mask(10) == 0x0020_0000 && Bit(w, 10) == Bit(v, 10);
    assert Mask(11) == 0x0010_0000 && Bit(w, 11) == Bit(v, 11);
    assert Mask(12) == 0x0008_0000 && Bit(w, 12) == Bit(v, 12);
    assert Mask(13) == 0x0004_0000 && Bit(w, 13) == Bit(v, 13);
    assert Mask(14) == 0x0002_0000 && Bit(w, 14) == Bit(v, 14);
    assert Mask(15) == 0x0001_0000 && Bit(w, 15) == Bit(v, 15);
  }

  lemma AgreeLowerMiddle(w: bv32, v: bv32)
    requires SameBits(w, v)
    ensures Has(w, 0x0000_8000) == Has(v, 0x0000_8000)
    ensures Has(w, 0x0000_4000) == Has(v, 0x0000_4000)
    ensures Has(w, 0x0000_2000) == Has(v, 0x0000_2000)
    ensures Has(w, 0x0000_1000) == Has(v, 0x0000_1000)
    ensures Has(w, 0x0000_0800) == Has(v, 0x0000_0800)
    ensures Has(w, 0x0000_0400) == Has(v, 0x0000_0400)
    ensures Has(w, 0x0000_0200) == Has(v, 0x0000_0200)
    ensures Has(w, 0x0000_0100) == Has(v, 0x0000_0100)
  {
    assert Mask(16) == 0x0000_8000 && Bit(w, 16) == Bit(v, 16);
    assert Mask(17) == 0x0000_4000 && Bit(w, 17) == Bit(v, 17);
    assert Mask(18) == 0x0000_2000 && Bit(w, 18) == Bit(v, 18);
    assert Mask(19) == 0x0000_1000 && Bit(w, 19) == Bit(v, 19);
    assert Mask(20) == 0x0000_0800 && Bit(w, 20) == Bit(v, 20);
    assert Mask(21) == 0x0000_0400 && Bit(w, 21) == Bit(v, 21);
    assert Mask(22) == 0x0000_0200 && Bit(w, 22) == Bit(v, 22);
    assert Mask(23) == 0x0000_0100 && Bit(w, 23) == Bit(v, 23);
  }

  lemma AgreeLow(w: bv32, v: bv32)
    requires SameBits(w, v)
    ensures Has(w, 0x0000_0080) == Has(v, 0x0000_0080)
    ensures Has(w, 0x0000_0040) == Has(v, 0x0000_0040)
    ensures Has(w, 0x0000_0020) == Has(v, 0x0000_0020)
    ensures Has(w, 0x0000_0010) == Has(v, 0x0000_0010)
    ensures Has(w, 0x0000_0008) == Has(v, 0x0000_0008)
    ensures Has(w, 0x0000_0004) == Has(v, 0x0000_0004)
    ensures Has(w, 0x0000_0002) == Has(v, 0x0000_0002)
    ensures Has(w, 0x0000_0001) == Has(v, 0x0000_0001)
  {
    assert Mask(24) == 0x0000_0080 && Bit(w, 24) == Bit(v, 24);
    assert Mask(25) == 0x0000_0040 && Bit(w, 25) == Bit(v, 25);
    assert Mask(26) == 0x0000_0020 && Bit(w, 26) == Bit(v, 26);
    assert Mask(27) == 0x0000_0010 && Bit(w, 27) == Bit(v, 27);
    assert Mask(28) == 0x0000_0008 && Bit(w, 28) == Bit(v, 28);
    assert Mask(29) == 0x0000_0004 && Bit(w, 29) == Bit(v, 29);
    assert Mask(30) == 0x0000_0002 && Bit(w, 30) == Bit(v, 30);
    assert Mask(31) == 0x0000_0001 && Bit(w, 31) == Bit(v, 31);
  }

  /** Words that agree on each of the 32 single-bit masks are equal. */
  lemma BitsAgree(w: bv32, v: bv32)
    requires Has(w, 0x8000_0000) == Has(v, 0x8000_0000)
    requires Has(w, 0x4000_0000) == Has(v, 0x4000_0000)
    requires Has(w, 0x2000_0000) == Has(v, 0x2000_0000)
    requires Has(w, 0x1000_0000) == Has(v, 0x1000_0000)
    requires Has(w, 0x0800_0000) == Has(v, 0x0800_0000)
    requires Has(w, 0x0400_0000) == Has(v, 0x0400_0000)
    requires Has(w, 0x0200_0000) == Has(v, 0x0200_0000)
    requires Has(w, 0x0100_0000) == Has(v, 0x0100_0000)
    requires Has(w, 0x0080_0000) == Has(v, 0x0080_0000)
    requires Has(w, 0x0040_0000) == Has(v, 0x0040_0000)
    requires Has(w, 0x0020_0000) == Has(v, 0x0020_0000)
    requires Has(w, 0x0010_0000) == Has(v, 0x0010_0000)
    requires Has(w, 0x0008_0000) == Has(v, 0x0008_0000)
    requires Has(w, 0x0004_0000) == Has(v, 0x0004_0000)
    requires Has(w, 0x0002_0000) == Has(v, 0x0002_0000)
    requires Has(w, 0x0001_0000) == Has(v, 0x0001_0000)
    requires Has(w, 0x0000_8000) == Has(v, 0x0000_8000)
    requires Has(w, 0x0000_4000) == Has(v, 0x0000_4000)
    requires Has(w, 0x0000_2000) == Has(v, 0x0000_2000)
    requires Has(w, 0x0000_1000) == Has(v, 0x0000_1000)
    requires Has(w, 0x0000_0800) == Has(v, 0x0000_0800)
    requires Has(w, 0x0000_0400) == Has(v, 0x0000_0400)
    requires Has(w, 0x0000_0200) == Has(v, 0x0000_0200)
    requires Has(w, 0x0000_0100) == Has(v, 0x0000_0100)
    requires Has(w, 0x0000_0080) == Has(v, 0x0000_0080)
    requires Has(w, 0x0000_0040) == Has(v, 0x0000_0040)
    requires Has(w, 0x0000_0020) == Has(v, 0x0000_0020)
    requires Has(w, 0x0000_0010) == Has(v, 0x0000_0010)
    requires Has(w, 0x0000_0008) == Has(v, 0x0000_0008)
    requires Has(w, 0x0000_0004) == Has(v, 0x0000_0004)
    requires Has(w, 0x0000_0002) == Has(v, 0x0000_0002)
    requires Has(w, 0x0000_0001) == Has(v, 0x0000_0001)
    ensures w == v
  {
  }
}
