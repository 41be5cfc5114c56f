/** The two unit tests of the chunk, `test_set_get` and `test_slice`, as
    methods whose result is the verdict of their assertions, proved to be
    true for every iteration. */
module ChunkTests {
  import opened Layout
  import opened Volume
  import opened Chunks

  // ---------------------------------------------------------------------
  // test_set_get

  /** One iteration of `test_set_get`: in a fresh chunk, a voxel that was
      set reads back as occupied. */
  method SetGetCase(x: int, y: int, z: int) returns (occupied: bool)
    requires 0 <= x < ChunkSize && 0 <= y < ChunkSize && 0 <= z < ChunkSize
    ensures occupied
  {
    var chunk := new Chunk.Empty();
    chunk.Set(x, y, z, true, 0);
    occupied := chunk.GetOccupied(x, y, z);
  }

  /** `test_set_get`: every voxel position passes. */
  method SetGet() returns (passed: bool)
    ensures passed
  {
    passed := true;
    for z := 0 to 32
      invariant passed
    {
      for y := 0 to 32
        invariant passed
      {
        for x := 0 to 32
          invariant passed
        {
          var occupied := SetGetCase(x, y, z);
          passed := passed && occupied;
        }
      }
    }
  }

  // ---------------------------------------------------------------------
  // test_slice

  /** The expected cross-section: every bit set except bit 1 of word 30. */
  function Target(a: int): bv32 {
    if a == 30 then 0xFFFF_FFFF ^ (1 << 30) else 0xFFFF_FFFF
  }

  /** The voxel the test clears in the plane at offset n along `axis`: the
      one at bit 1 of word 30 of that cross-section. */
  function Hole(axis: Axis, n: int): Pos {
    SliceCoords(axis, n, 30, 1)
  }

  /** Bit b of Target(a) is clear exactly at the hole. */
  lemma TargetBit(a: int, b: int)
    requires 0 <= a < 32 && 0 <= b < 32
    ensures Bit(Target(a), b) == !(a == 30 && b == 1)
  {
    FullBit(b);
    if a == 30 {
      MaskValues();
      assert Target(a) == 0xFFFF_FFFF & (0xFFFF_FFFF ^ Mask(1));
      if b == 1 {
        RemoveSame(0xFFFF_FFFF, 1);
      } else {
        RemoveOther(0xFFFF_FFFF, 1, b);
      }
    }
  }

  /** The loop variable of the outer filling loop of the test along `axis`
      names this coordinate of the voxel it sets ... */
  function Outer(axis: Axis, p: Pos): int {
    match axis
    case X => p.z
    case Y => p.x
    case Z => p.y
  }

  /** ... and that of the inner loop this one. */
  function Inner(axis: Axis, p: Pos): int {
    match axis
    case X => p.y
    case Y => p.z
    case Z => p.x
  }

  /** The voxel the filling loops set at outer step i, inner step j. */
  function PlanePoint(axis: Axis, n: int, i: int, j: int): (p: Pos)
    ensures Layer(axis, p) == n && Outer(axis, p) == i && Inner(axis, p) == j
  {
    match axis
    case X => Pos(n, j, i)
    case Y => Pos(i, n, j)
    case Z => Pos(j, i, n)
  }

  /** After outer step i and inner step j of the filling loops, exactly the
      voxels of the plane at offset n that come before (i, j) are occupied. */
  ghost predicate Filled(words: seq<bv32>, axis: Axis, n: int, i: int, j: int)
    requires |words| == WordCount
  {
    forall p: Pos :: p.InChunk() ==>
      (Occupied(words, p) <==>
        Layer(axis, p) == n && (Outer(axis, p) < i || (Outer(axis, p) == i && Inner(axis, p) < j)))
  }

  /** Setting the next voxel of the plane extends the filled part by one. */
  lemma FillStep(words: seq<bv32>, axis: Axis, n: int, i: int, j: int)
    requires |words| == WordCount && 0 <= n < 32 && 0 <= i < 32 && 0 <= j < 32
    requires Filled(words, axis, n, i, j)
    ensures Filled(WithVoxel(words, PlanePoint(axis, n, i, j), true), axis, n, i, j + 1)
  {
    var p := PlanePoint(axis, n, i, j);
    var words' := WithVoxel(words, p, true);
    forall q: Pos | q.InChunk()
      ensures Occupied(words', q) <==>
        Layer(axis, q) == n && (Outer(axis, q) < i || (Outer(axis, q) == i && Inner(axis, q) < j + 1))
    {
      if q != p {
        WithVoxelOther(words, p, true, q);
        assert Layer(axis, q) != n || Outer(axis, q) != i || Inner(axis, q) != j;
      }
    }
  }

  /** Clearing the hole of a full plane leaves the plane without it. */
  lemma ClearHole(words: seq<bv32>, axis: Axis, n: int)
    requires |words| == WordCount && 0 <= n < 32
    requires forall p: Pos :: p.InChunk() ==> (Occupied(words, p) <==> Layer(axis, p) == n)
    ensures forall p: Pos :: p.InChunk() ==>
      (Occupied(WithVoxel(words, Hole(axis, n), false), p) <==> Layer(axis, p) == n && p != Hole(axis, n))
  {
    var h := Hole(axis, n);
    forall p: Pos | p.InChunk()
      ensures Occupied(WithVoxel(words, h, false), p) <==> Layer(axis, p) == n && p != h
    {
      if p != h {
        WithVoxelOther(words, h, false, p);
      }
    }
  }

  /** The chunk one iteration of `test_slice` builds: the plane at offset n
      along `axis` filled by the test's two loops, then its hole cleared. */
  method Plane(axis: Axis, n: int) returns (chunk: Chunk)
    requires 0 <= n < ChunkSize
    ensures fresh(chunk) && fresh(chunk.voxels) && chunk.Valid()
    ensures forall p: Pos :: p.InChunk() ==>
      (Occupied(chunk.voxels[..], p) <==> Layer(axis, p) == n && p != Hole(axis, n))
  {
    chunk := new Chunk.Empty();
    EmptyIsVacant();
    for i := 0 to 32
      invariant fresh(chunk) && fresh(chunk.voxels) && chunk.Valid()
      invariant Filled(chunk.voxels[..], axis, n, i, 0)
    {
      for j := 0 to 32
        invariant fresh(chunk) && fresh(chunk.voxels) && chunk.Valid()
        invariant Filled(chunk.voxels[..], axis, n, i, j)
      {
        FillStep(chunk.voxels[..], axis, n, i, j);
        match axis
        case X => chunk.Set(n, j, i, true, 0);
        case Y => chunk.Set(i, n, j, true, 0);
        case Z => chunk.Set(j, i, n, true, 0);
      }
    }
    var h := Hole(axis, n);
    ClearHole(chunk.voxels[..], axis, n);
    chunk.Set(h.x, h.y, h.z, false, 0);
  }

  /** In the holed plane, voxel (n, a, b) of the cross-section is occupied
      exactly where the target has its bit set. */
  lemma HoledBit(words: seq<bv32>, axis: Axis, n: int, a: int, b: int)
    requires |words| == WordCount && 0 <= n < 32 && 0 <= a < 32 && 0 <= b < 32
    requires forall p: Pos :: p.InChunk() ==>
      (Occupied(words, p) <==> Layer(axis, p) == n && p != Hole(axis, n))
    ensures Occupied(words, SliceCoords(axis, n, a, b)) == Bit(Target(a), b)
  {
    TargetBit(a, b);
    SliceCoordsInverse(axis, n, a, b, Hole(axis, n));
    SliceCoordsInverse(axis, n, a, b, SliceCoords(axis, n, a, b));
  }

  /** One iteration of `test_slice`: the cross-section of the holed plane
      is the target. Along X the buffer still holds what earlier iterations
      wrote, which is harmless as long as it has no bit outside the target. */
  method SliceCase(axis: Axis, n: int, buffer: array2<bv32>)
    requires 0 <= n < ChunkSize && buffer.Length0 == 1 && buffer.Length1 == 32
    requires axis == X ==> forall a, b :: 0 <= a < 32 && 0 <= b < 32 && Bit(buffer[0, a], b) ==> Bit(Target(a), b)
    modifies buffer
    ensures forall a :: 0 <= a < 32 ==> buffer[0, a] == Target(a)
  {
    var chunk := Plane(axis, n);
    chunk.Slice(axis, n, buffer, 0);
    forall a | 0 <= a < 32
      ensures buffer[0, a] == Target(a)
    {
      forall b | 0 <= b < 32
        ensures Bit(buffer[0, a], b) == Bit(Target(a), b)
      {
        HoledBit(chunk.voxels[..], axis, n, a, b);
      }
      WordFromBits(buffer[0, a], Target(a));
    }
  }

  /** `test_slice`: along each axis and at every offset the slice equals the
      target. */
  method SliceTest() returns (passed: bool)
    ensures passed
  {
    passed := true;
    var buffer := new bv32[1, 32]((_, _) => 0);
    ZeroBits();
    for n := 0 to 32
      invariant passed
      invariant forall a :: 0 <= a < 32 ==> buffer[0, a] == if n == 0 then 0 else Target(a)
    {
      SliceCase(X, n, buffer);
      passed := passed && forall a | 0 <= a < 32 :: buffer[0, a] == Target(a);
    }
    for n := 0 to 32
      invariant passed
    {
      SliceCase(Y, n, buffer);
      passed := passed && forall a | 0 <= a < 32 :: buffer[0, a] == Target(a);
    }
    for n := 0 to 32
      invariant passed
    {
      SliceCase(Z, n, buffer);
      passed := passed && forall a | 0 <= a < 32 :: buffer[0, a] == Target(a);
    }
  }
}
