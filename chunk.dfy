/** A voxel chunk: 1024 row words of occupancy bits and a colour table, with
    the operations that set and read single voxels, cut cross-sections,
    build the face mesh and count occupied voxels. */
module Chunks {
  import opened Layout
  import opened Volume
  import opened Meshing

  class Chunk {
    /** One row word per (y, z) pair, at index z * 32 + (31 - y). */
    var voxels: array<bv32>
    /** Colour per voxel, under the key ColorKey. */
    var colors: map<Key, Byte>

    /** The chunk's invariant: 1024 row words, and a colour for every
        occupied voxel (which `remesh` relies on when it unwraps colours). */
    ghost predicate Valid()
      reads this, voxels
    {
      voxels.Length == WordCount && Coloured(voxels[..], colors)
    }

    /** An empty chunk: no voxel occupied, no colour recorded. */
    constructor Empty()
      ensures Valid() && fresh(voxels)
      ensures voxels[..] == EmptyWords() && colors == map[]
    {
      voxels := new bv32[WordCount](_ => 0);
      colors := map[];
      new;
      assert voxels[..] == EmptyWords();
      EmptyIsVacant();
    }

    /** Records `color` for voxel (x, y, z) and sets its occupancy to
        `state`; coordinates outside the chunk abort. */
    method Set(x: int, y: int, z: int, state: bool, color: Byte)
      requires Valid()
      requires 0 <= x < ChunkSize && 0 <= y < ChunkSize && 0 <= z < ChunkSize
      modifies this, voxels
      ensures Valid() && voxels == old(voxels)
      ensures voxels[..] == WithVoxel(old(voxels[..]), Pos(x, y, z), state)
      ensures colors == WithColor(old(colors), Pos(x, y, z), color)
      ensures GetOccupied(x, y, z) == state && GetColor(x, y, z) == Some(color)
    {
      colors := colors[((z * 32 * 32 + (31 - y) * 32 + x) % 0x1_0000) as Key := color];
      var i := z * 32 + (31 - y);
      voxels[i] := SetBit(voxels[i], x, state);
      SetKeepsColoured(old(voxels[..]), old(colors), Pos(x, y, z), state, color);
    }

    /** Whether voxel (x, y, z) is occupied; coordinates outside the chunk
        abort. */
    function GetOccupied(x: int, y: int, z: int): (r: bool)
      reads this, voxels
      requires Valid()
      requires 0 <= x < ChunkSize && 0 <= y < ChunkSize && 0 <= z < ChunkSize
      ensures r == Occupied(voxels[..], Pos(x, y, z))
    {
      voxels[z * 32 + (31 - y)] & (0x8000_0000 >> x) != 0
    }

    /** The colour recorded for voxel (x, y, z), if any; coordinates outside
        the chunk abort. */
    function GetColor(x: int, y: int, z: int): (r: Option<Byte>)
      reads this
      requires 0 <= x < ChunkSize && 0 <= y < ChunkSize && 0 <= z < ChunkSize
      ensures r == ColorAt(colors, Pos(x, y, z))
    {
      var key := ((z * 32 * 32 + (31 - y) * 32 + x) % 0x1_0000) as Key;
      if key in colors then Some(colors[key]) else None
    }

    /** Writes the cross-section at offset n along `axis` into row `row` of
        the buffer: bit b of word a describes voxel SliceCoords(axis, n, a,
        b). Along Y and Z the words are copied and replace the row; along X
        each voxel is moved into place and or-ed into the row, so bits
        already set stay set. No other row changes. */
    method Slice(axis: Axis, n: int, buffer: array2<bv32>, row: int)
      requires Valid() && 0 <= n < ChunkSize
      requires 0 <= row < buffer.Length0 && buffer.Length1 == 32
      modifies buffer
      ensures forall a, b :: 0 <= a < 32 && 0 <= b < 32 ==>
        Bit(buffer[row, a], b) ==
          ((axis == X && Bit(old(buffer[row, a]), b)) || Occupied(voxels[..], SliceCoords(axis, n, a, b)))
      ensures forall i, j :: 0 <= i < buffer.Length0 && 0 <= j < 32 && i != row ==> buffer[i, j] == old(buffer[i, j])
    {
      match axis
      case X =>
        for y := 0 to 32
          invariant forall a, b :: 0 <= a < y && 0 <= b < 32 ==>
            Bit(buffer[row, a], b) == (Bit(old(buffer[row, a]), b) || Occupied(voxels[..], SliceCoords(X, n, a, b)))
          invariant forall i, j :: 0 <= i < buffer.Length0 && 0 <= j < 32 && (i != row || j >= y) ==>
            buffer[i, j] == old(buffer[i, j])
        {
          OrColumn(n, buffer, row, y);
        }
      case Y =>
        for z := 0 to 32
          invariant forall a :: 31 - z < a < 32 ==> buffer[row, a] == voxels[(31 - a) * 32 + (31 - n)]
          invariant forall i, j :: 0 <= i < buffer.Length0 && 0 <= j < 32 && (i != row || j <= 31 - z) ==>
            buffer[i, j] == old(buffer[i, j])
        {
          buffer[row, 31 - z] := voxels[z * 32 + (31 - n)];
        }
      case Z =>
        for y := 0 to 32
          invariant forall a :: 0 <= a < y ==> buffer[row, a] == voxels[n * 32 + a]
          invariant forall i, j :: 0 <= i < buffer.Length0 && 0 <= j < 32 && (i != row || j >= y) ==>
            buffer[i, j] == old(buffer[i, j])
        {
          buffer[row, y] := voxels[n * 32 + y];
        }
    }

    /** Whether rows 1 to 32 of the buffer hold the cross-sections along
        `axis` (row m the one at offset m - 1) and rows 0 and 33, the layers
        beyond the chunk's two faces, are empty: bit b of word a of row m is
        set exactly when voxel SliceCoords(axis, m - 1, a, b) is solid. */
    ghost predicate Holds(buffer: array2<bv32>, axis: Axis)
      reads this, voxels, buffer
      requires Valid()
    {
      buffer.Length0 == 34 && buffer.Length1 == 32 &&
      forall m, a, b :: 0 <= m < 34 && 0 <= a < 32 && 0 <= b < 32 ==>
        Bit(buffer[m, a], b) == Solid(voxels[..], SliceCoords(axis, m - 1, a, b))
    }

    /** Builds the face mesh of the chunk and appends it to `out`: every
        visible face of every occupied voxel, each once, coloured from the
        colour table, in scan order. The chunk itself does not change. */
    method Remesh(out: seq<Quad>) returns (result: seq<Quad>)
      requires Valid()
      ensures result == out + Mesh(voxels[..], colors)
    {
      var buffer := new bv32[34, 32]((_, _) => 0);
      result := Sweep(X, buffer, out);
      result := Sweep(Y, buffer, result);
      result := Sweep(Z, buffer, result);
      ghost var words := voxels[..];
      AppendThree(out, Scanned(words, colors, X, 32, 0, 0), Scanned(words, colors, Y, 32, 0, 0),
        Scanned(words, colors, Z, 32, 0, 0));
    }

    /** One of the three passes of `remesh`: slice the chunk along `axis`
        into the buffer, then scan it. */
    method Sweep(axis: Axis, buffer: array2<bv32>, out: seq<Quad>) returns (result: seq<Quad>)
      requires Valid() && buffer.Length0 == 34 && buffer.Length1 == 32
      requires forall a :: 0 <= a < 32 ==> buffer[0, a] == 0 && buffer[33, a] == 0
      requires axis == X ==> forall m, a :: 0 <= m < 34 && 0 <= a < 32 ==> buffer[m, a] == 0
      modifies buffer
      ensures forall a :: 0 <= a < 32 ==> buffer[0, a] == 0 && buffer[33, a] == 0
      ensures result == out + Scanned(voxels[..], colors, axis, 32, 0, 0)
    {
      Load(axis, buffer);
      result := Scan(axis, buffer, out);
    }

    /** The slicing loop of `remesh`: the cross-section at offset n goes to
        buffer row n + 1. Rows 0 and 33 are never written. Along X the rows
        must start out empty, since that cross-section is or-ed in. */
    method Load(axis: Axis, buffer: array2<bv32>)
      requires Valid() && buffer.Length0 == 34 && buffer.Length1 == 32
      requires forall a :: 0 <= a < 32 ==> buffer[0, a] == 0 && buffer[33, a] == 0
      requires axis == X ==> forall m, a :: 0 <= m < 34 && 0 <= a < 32 ==> buffer[m, a] == 0
      modifies buffer
      ensures Holds(buffer, axis)
      ensures forall a :: 0 <= a < 32 ==> buffer[0, a] == 0 && buffer[33, a] == 0
    {
      ZeroBits();
      for n := 0 to 32
        invariant forall m, a, b :: 1 <= m <= n && 0 <= a < 32 && 0 <= b < 32 ==>
          Bit(buffer[m, a], b) == Occupied(voxels[..], SliceCoords(axis, m - 1, a, b))
        invariant forall m, a :: (m == 0 || n + 1 <= m < 34) && 0 <= a < 32 ==> buffer[m, a] == old(buffer[m, a])
      {
        Slice(axis, n, buffer, n + 1);
      }
      forall m, a, b | 0 <= m < 34 && 0 <= a < 32 && 0 <= b < 32
        ensures Bit(buffer[m, a], b) == Solid(voxels[..], SliceCoords(axis, m - 1, a, b))
      {
      }
    }

    /** The scanning loops of `remesh` along `axis`: for each cross-section,
        word and bit, a quad for each of the two faces that are exposed. */
    method Scan(axis: Axis, buffer: array2<bv32>, out: seq<Quad>) returns (result: seq<Quad>)
      requires Valid() && Holds(buffer, axis)
      ensures result == out + Scanned(voxels[..], colors, axis, 32, 0, 0)
    {
      result := out;
      for n := 1 to 33
        invariant result == out + Scanned(voxels[..], colors, axis, n - 1, 0, 0)
      {
        for a := 0 to 32
          invariant result == out + Scanned(voxels[..], colors, axis, n - 1, a, 0)
        {
          result := ScanRow(axis, buffer, n, a, result, out);
        }
      }
    }

    /** The innermost scanning loop, over the bits of word a of buffer row
        n. */
    method ScanRow(axis: Axis, buffer: array2<bv32>, n: int, a: int, out: seq<Quad>, ghost base: seq<Quad>)
      returns (result: seq<Quad>)
      requires Valid() && Holds(buffer, axis) && 1 <= n <= 32 && 0 <= a < 32
      requires out == base + Scanned(voxels[..], colors, axis, n - 1, a, 0)
      ensures result == base + Scanned(voxels[..], colors, axis, n - 1, a, 32)
    {
      result := out;
      for b := 0 to 32
        invariant result == base + Scanned(voxels[..], colors, axis, n - 1, a, b)
      {
        ghost var before := result;
        result := ScanCell(axis, buffer, n, a, b, result);
        AppendTwo(base, Scanned(voxels[..], colors, axis, n - 1, a, b), CellFaces(voxels[..], colors, axis, n - 1, a, b));
      }
    }

    /** The body of the scanning loops: bit b of word a of buffer row n is
        voxel p = SliceCoords(axis, n - 1, a, b). A quad is pushed for its
        first face when p is set and the neighbouring row on that side has
        the bit clear, then likewise for its second face. */
    method ScanCell(axis: Axis, buffer: array2<bv32>, n: int, a: int, b: int, out: seq<Quad>) returns (result: seq<Quad>)
      requires Valid() && Holds(buffer, axis) && 1 <= n <= 32 && 0 <= a < 32 && 0 <= b < 32
      ensures result == out + CellFaces(voxels[..], colors, axis, n - 1, a, b)
    {
      var first, second := if axis == Z then n - 1 else n + 1, if axis == Z then n + 1 else n - 1;
      FirstNeighbour(axis, n - 1, a, b);
      SecondNeighbour(axis, n - 1, a, b);
      var p := SliceCoords(axis, n - 1, a, b);
      result := PushFace(axis, buffer, n, first, a, b, FirstFace(axis), out);
      result := PushFace(axis, buffer, n, second, a, b, SecondFace(axis), result);
      AppendTwo(out, FaceIf(voxels[..], colors, p, FirstFace(axis)), FaceIf(voxels[..], colors, p, SecondFace(axis)));
    }

    /** One face test of the scan: the voxel in buffer row n gets a quad on
        face d when it is set there and the row `other` holding its
        neighbour across d has that bit clear. */
    method PushFace(axis: Axis, buffer: array2<bv32>, n: int, other: int, a: int, b: int, d: Direction, out: seq<Quad>)
      returns (result: seq<Quad>)
      requires Valid() && Holds(buffer, axis) && 1 <= n <= 32 && 0 <= other < 34 && 0 <= a < 32 && 0 <= b < 32
      requires Neighbour(SliceCoords(axis, n - 1, a, b), d) == SliceCoords(axis, other - 1, a, b)
      ensures result == out + FaceIf(voxels[..], colors, SliceCoords(axis, n - 1, a, b), d)
    {
      var p := SliceCoords(axis, n - 1, a, b);
      BufferBit(buffer, axis, n, a, b);
      BufferBit(buffer, axis, other, a, b);
      result := out;
      if !Bit(buffer[other, a], b) && Bit(buffer[n, a], b) {
        result := result + [Quad(d, p, GetColor(p.x, p.y, p.z).value)];
      }
    }

    /** Bit b of word a of buffer row m says whether voxel
        SliceCoords(axis, m - 1, a, b) is solid. */
    lemma BufferBit(buffer: array2<bv32>, axis: Axis, m: int, a: int, b: int)
      requires Valid() && Holds(buffer, axis) && 0 <= m < 34 && 0 <= a < 32 && 0 <= b < 32
      ensures Bit(buffer[m, a], b) == Solid(voxels[..], SliceCoords(axis, m - 1, a, b))
    {
    }

    /** The number of occupied voxels: the set bits of all 1024 row words. */
    method Count() returns (count: int)
      requires Valid()
      ensures count == |OccupiedSet(voxels[..])|
    {
      count := 0;
      for i := 0 to WordCount
        invariant count == WordsCount(voxels[..], i)
      {
        count := count + CountOnes(voxels[i]);
      }
      CountIsOccupied(voxels[..]);
    }

    /** The inner loop of the X cross-section for word y: voxel n of each row
        word (31 - y, z) is moved to bit z and or-ed into buffer word y. */
    method OrColumn(n: int, buffer: array2<bv32>, row: int, y: int)
      requires Valid() && 0 <= n < 32 && 0 <= y < 32
      requires 0 <= row < buffer.Length0 && buffer.Length1 == 32
      modifies buffer
      ensures forall b :: 0 <= b < 32 ==>
        Bit(buffer[row, y], b) == (Bit(old(buffer[row, y]), b) || Occupied(voxels[..], SliceCoords(X, n, y, b)))
      ensures forall i, j :: 0 <= i < buffer.Length0 && 0 <= j < 32 && (i != row || j != y) ==>
        buffer[i, j] == old(buffer[i, j])
    {
      for z := 0 to 32
        invariant forall b :: 0 <= b < 32 ==>
          Bit(buffer[row, y], b) == (Bit(old(buffer[row, y]), b) || (b < z && Bit(voxels[b * 32 + y], n)))
        invariant forall i, j :: 0 <= i < buffer.Length0 && 0 <= j < 32 && (i != row || j != y) ==>
          buffer[i, j] == old(buffer[i, j])
      {
        buffer[row, y] := OrMoved(buffer[row, y], voxels[z * 32 + y], n, z);
      }
      forall b | 0 <= b < 32
        ensures Occupied(voxels[..], SliceCoords(X, n, y, b)) == Bit(voxels[b * 32 + y], n)
      {
        assert WordIndex(31 - y, b) == b * 32 + y;
      }
    }
  }

  /** One step of the X cross-section: computes u | Extracted(v, n, z), so
      voxel z of the result is occupied when it was in u or voxel n of v is,
      and the other voxels are those of u. */
  method OrMoved(u: bv32, v: bv32, n: int, z: int) returns (r: bv32)
    requires 0 <= n < 32 && 0 <= z < 32
    ensures r == u | Extracted(v, n, z)
    ensures forall b :: 0 <= b < 32 ==> Bit(r, b) == (Bit(u, b) || (b == z && Bit(v, n)))
  {
    var moved := ((v << n) & 0x8000_0000) >> z;
    r := u | moved;
    forall b | 0 <= b < 32
      ensures Bit(r, b) == (Bit(u, b) || (b == z && Bit(v, n)))
    {
      OrBit(u, moved, b);
      if b == z {
        ExtractedSame(v, n, z);
      } else {
        ExtractedOther(v, n, z, b);
      }
    }
  }
}
