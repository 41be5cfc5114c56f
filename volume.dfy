/** What a chunk's storage means: the 1024 row words as a set of occupied
    voxels, the colour table as a partial colouring, the single-voxel updates
    of `set`, the cross-sections of `slice`, and the population count of
    `count`. */
module Volume {
  import opened Layout

  /** Number of row words in a chunk: one per (y, z) pair. */
  const WordCount := 1024

  /** Whether voxel p is occupied in the row words. */
  predicate Occupied(words: seq<bv32>, p: Pos)
    requires |words| == WordCount && p.InChunk()
  {
    Bit(words[WordIndex(p.y, p.z)], p.x)
  }

  /** The colour-table entry of voxel p, if any. */
  function ColorAt(colors: map<Key, Byte>, p: Pos): Option<Byte>
    requires p.InChunk()
  {
    if ColorKey(p) in colors then Some(colors[ColorKey(p)]) else None
  }

  /** Every occupied voxel has a colour-table entry. */
  ghost predicate Coloured(words: seq<bv32>, colors: map<Key, Byte>)
    requires |words| == WordCount
  {
    forall p: Pos :: p.InChunk() && Occupied(words, p) ==> ColorKey(p) in colors
  }

  /** The row words of an empty chunk. */
  function EmptyWords(): (r: seq<bv32>)
    ensures |r| == WordCount
  {
    seq(WordCount, _ => 0)
  }

  /** An empty chunk has no occupied voxel and is trivially coloured. */
  lemma EmptyIsVacant()
    ensures forall p: Pos :: p.InChunk() ==> !Occupied(EmptyWords(), p)
    ensures Coloured(EmptyWords(), map[])
  {
    forall p: Pos | p.InChunk()
      ensures !Occupied(EmptyWords(), p)
    {
      ZeroBit(p.x);
    }
  }

  /** The row words after `set` has written `state` into voxel p: voxel p
      is then occupied exactly when `state`. */
  function WithVoxel(words: seq<bv32>, p: Pos, state: bool): (r: seq<bv32>)
    requires |words| == WordCount && p.InChunk()
    ensures |r| == WordCount
    ensures Occupied(r, p) == state
  {
    var i := WordIndex(p.y, p.z);
    words[i := SetBit(words[i], p.x, state)]
  }

  /** After `set`, every voxel other than p keeps its occupancy. */
  lemma WithVoxelOther(words: seq<bv32>, p: Pos, state: bool, q: Pos)
    requires |words| == WordCount && p.InChunk() && q.InChunk() && q != p
    ensures Occupied(WithVoxel(words, p, state), q) == Occupied(words, q)
  {
    var i := WordIndex(p.y, p.z);
    if WordIndex(q.y, q.z) == i {
      SetBitOther(words[i], p.x, state, q.x);
    }
  }

  /** The colour table after `set` has recorded colour c for voxel p: voxel
      p then reads back colour c, and no entry is removed. */
  function WithColor(colors: map<Key, Byte>, p: Pos, c: Byte): (r: map<Key, Byte>)
    requires p.InChunk()
    ensures ColorAt(r, p) == Some(c)
    ensures colors.Keys <= r.Keys
  {
    colors[ColorKey(p) := c]
  }

  /** After `set`, every voxel other than p keeps its colour-table entry. */
  lemma WithColorOther(colors: map<Key, Byte>, p: Pos, c: Byte, q: Pos)
    requires p.InChunk() && q.InChunk() && q != p
    ensures ColorAt(WithColor(colors, p, c), q) == ColorAt(colors, q)
  {
    ColorKeyInjective(p, q);
  }

  /** Distinct voxels have distinct colour keys, so the 16-bit key never
      merges two voxels' entries. */
  lemma {:induction false} ColorKeyInjective(p: Pos, q: Pos)
    requires p.InChunk() && q.InChunk()
    ensures ColorKey(p) == ColorKey(q) <==> p == q
  {
    if ColorKey(p) == ColorKey(q) {
      ColorKeySplit(p);
      ColorKeySplit(q);
      assert WordIndex(p.y, p.z) == WordIndex(q.y, q.z);
    }
  }

  /** `set` keeps every occupied voxel coloured, whichever state it writes:
      it records a colour for the voxel it touches and removes no entry. */
  lemma SetKeepsColoured(words: seq<bv32>, colors: map<Key, Byte>, p: Pos, state: bool, c: Byte)
    requires |words| == WordCount && p.InChunk()
    requires Coloured(words, colors)
    ensures Coloured(WithVoxel(words, p, state), WithColor(colors, p, c))
  {
    var words', colors' := WithVoxel(words, p, state), WithColor(colors, p, c);
    forall q: Pos | q.InChunk() && Occupied(words', q)
      ensures ColorKey(q) in colors'
    {
      if q != p {
        WithVoxelOther(words, p, state, q);
        assert Occupied(words, q);
      }
    }
  }

  // ---------------------------------------------------------------------
  // Cross-sections

  /** The voxel that bit b of word a of the `axis` cross-section at offset n
      describes. */
  function SliceCoords(axis: Axis, n: int, a: int, b: int): (p: Pos)
  {
    match axis
    case X => Pos(n, 31 - a, b)
    case Y => Pos(b, n, 31 - a)
    case Z => Pos(b, 31 - a, n)
  }

  /** The offset of voxel p along `axis`. */
  function Layer(axis: Axis, p: Pos): int {
    match axis
    case X => p.x
    case Y => p.y
    case Z => p.z
  }

  /** The word of the `axis` cross-section that holds voxel p. */
  function Row(axis: Axis, p: Pos): int {
    match axis
    case X => 31 - p.y
    case Y => 31 - p.z
    case Z => 31 - p.y
  }

  /** The bit of that word that holds voxel p. */
  function Column(axis: Axis, p: Pos): int {
    match axis
    case X => p.z
    case Y => p.x
    case Z => p.x
  }

  /** Offset, word and bit name a voxel along every axis: SliceCoords and the
      three projections are inverse to each other. */
  lemma SliceCoordsInverse(axis: Axis, n: int, a: int, b: int, p: Pos)
    ensures SliceCoords(axis, n, a, b) == p <==>
      Layer(axis, p) == n && Row(axis, p) == a && Column(axis, p) == b
  {
  }

  // ---------------------------------------------------------------------
  // Population count

  /** The number of occupied voxels among the first k of row word w. */
  function PopCount(w: bv32, k: int): (r: nat)
    requires 0 <= k <= 32
    ensures r <= k
  {
    if k == 0 then 0 else PopCount(w, k - 1) + (if Bit(w, k - 1) then 1 else 0)
  }

  /** The first k voxels of a row word count zero exactly when none of them
      is occupied. */
  lemma {:induction false} PopCountZero(w: bv32, k: int)
    requires 0 <= k <= 32
    ensures PopCount(w, k) == 0 <==> forall j :: 0 <= j < k ==> !Bit(w, j)
    decreases k
  {
    if k > 0 {
      PopCountZero(w, k - 1);
      if PopCount(w, k) == 0 {
        assert PopCount(w, k - 1) == 0 && !Bit(w, k - 1);
      } else if PopCount(w, k - 1) == 0 {
        assert Bit(w, k - 1);
      } else {
        var j :| 0 <= j < k - 1 && Bit(w, j);
        assert 0 <= j < k && Bit(w, j);
      }
    }
  }

  /** The number of set bits of a row word (`u32::count_ones`). */
  function CountOnes(w: bv32): (r: nat)
    ensures r <= 32
  {
    PopCount(w, 32)
  }

  /** A row word counts zero exactly when it is the empty word. */
  lemma CountOnesZero(w: bv32)
    ensures CountOnes(w) == 0 <==> w == 0
  {
    PopCountZero(w, 32);
    ZeroBits();
    if CountOnes(w) == 0 {
      WordFromBits(w, 0);
    }
  }

  /** The sum of CountOnes over the first i row words. */
  function WordsCount(words: seq<bv32>, i: int): nat
    requires 0 <= i <= |words|
  {
    if i == 0 then 0 else WordsCount(words, i - 1) + CountOnes(words[i - 1])
  }

  /** The occupied voxels of a chunk. */
  function OccupiedSet(words: seq<bv32>): set<Pos>
    requires |words| == WordCount
  {
    set x, y, z | 0 <= x < 32 && 0 <= y < 32 && 0 <= z < 32 && Occupied(words, Pos(x, y, z)) :: Pos(x, y, z)
  }

  /** The occupied voxels held by the first i row words. */
  function OccupiedBelow(words: seq<bv32>, i: int): set<Pos>
    requires |words| == WordCount
  {
    set x, y, z | 0 <= x < 32 && 0 <= y < 32 && 0 <= z < 32 && WordIndex(y, z) < i &&
      Occupied(words, Pos(x, y, z)) :: Pos(x, y, z)
  }

  /** The occupied voxels among the first k of row word i. */
  function RowVoxels(words: seq<bv32>, i: int, k: int): set<Pos>
    requires |words| == WordCount && 0 <= i < WordCount && 0 <= k <= 32
  {
    set x | 0 <= x < k && Bit(words[i], x) :: Pos(x, 31 - i % 32, i / 32)
  }

  /** Extending a row prefix by voxel k - 1 adds that voxel exactly when it
      is occupied, and the voxel is new. */
  lemma RowVoxelsStep(words: seq<bv32>, i: int, k: int)
    requires |words| == WordCount && 0 <= i < WordCount && 0 < k <= 32
    ensures RowVoxels(words, i, k) ==
      RowVoxels(words, i, k - 1) + (if Bit(words[i], k - 1) then {Pos(k - 1, 31 - i % 32, i / 32)} else {})
    ensures Pos(k - 1, 31 - i % 32, i / 32) !in RowVoxels(words, i, k - 1)
  {
  }

  /** Each row word contributes its population count to the occupied set. */
  lemma {:induction false} RowVoxelsCount(words: seq<bv32>, i: int, k: int)
    requires |words| == WordCount && 0 <= i < WordCount && 0 <= k <= 32
    ensures |RowVoxels(words, i, k)| == PopCount(words[i], k)
    decreases k
  {
    if k == 0 {
      assert RowVoxels(words, i, k) == {};
    } else {
      RowVoxelsCount(words, i, k - 1);
      RowVoxelsStep(words, i, k);
    }
  }

  lemma OccupiedBelowStep(words: seq<bv32>, i: int)
    requires |words| == WordCount && 0 <= i < WordCount
    ensures OccupiedBelow(words, i + 1) == OccupiedBelow(words, i) + RowVoxels(words, i, 32)
    ensures OccupiedBelow(words, i) !! RowVoxels(words, i, 32)
  {
    var below, next, row := OccupiedBelow(words, i), OccupiedBelow(words, i + 1), RowVoxels(words, i, 32);
    forall p | p in next
      ensures p in below + row
    {
      var x, y, z :| 0 <= x < 32 && 0 <= y < 32 && 0 <= z < 32 && WordIndex(y, z) < i + 1 &&
        Occupied(words, Pos(x, y, z)) && p == Pos(x, y, z);
      if WordIndex(y, z) == i {
        assert p in row;
      }
    }
    forall p | p in row
      ensures p in next && p !in below
    {
      var x :| 0 <= x < 32 && Bit(words[i], x) && p == Pos(x, 31 - i % 32, i / 32);
      assert WordIndex(31 - i % 32, i / 32) == i;
      assert Occupied(words, Pos(x, 31 - i % 32, i / 32));
    }
  }

  lemma DisjointUnionSize(s: set<Pos>, t: set<Pos>)
    requires s !! t
    ensures |s + t| == |s| + |t|
  {
    assert s * t == {};
  }

  lemma {:induction false} OccupiedBelowCount(words: seq<bv32>, i: int)
    requires |words| == WordCount && 0 <= i <= WordCount
    ensures |OccupiedBelow(words, i)| == WordsCount(words, i)
    decreases i
  {
    if i == 0 {
      assert OccupiedBelow(words, 0) == {};
    } else {
      OccupiedBelowCount(words, i - 1);
      OccupiedBelowStep(words, i - 1);
      RowVoxelsCount(words, i - 1, 32);
      DisjointUnionSize(OccupiedBelow(words, i - 1), RowVoxels(words, i - 1, 32));
    }
  }

  /** Summing the population counts of all 1024 row words counts the
      occupied voxels of the chunk. */
  lemma CountIsOccupied(words: seq<bv32>)
    requires |words| == WordCount
    ensures WordsCount(words, WordCount) == |OccupiedSet(words)|
  {
    OccupiedBelowCount(words, WordCount);
    assert OccupiedBelow(words, WordCount) == OccupiedSet(words);
  }

  /** An empty chunk counts zero voxels. */
  lemma EmptyCountsZero()
    ensures OccupiedSet(EmptyWords()) == {}
  {
    EmptyIsVacant();
  }
}
