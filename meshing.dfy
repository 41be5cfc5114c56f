/** The faces `remesh` emits: every face of an occupied voxel whose neighbour
    across that face is empty or beyond the chunk's edge, coloured from the
    colour table, in the order the three axis scans visit them. */
module Meshing {
  import opened Layout
  import opened Volume

  /** One visible voxel face: its orientation, the voxel it belongs to and
      that voxel's colour. */
  datatype Quad = Quad(direction: Direction, pos: Pos, color: Byte)

  /** The voxel across face d of voxel p. Left and Right step along x (+1
      and -1), Up and Down along y (+1 and -1), Front and Back along z (-1
      and +1). */
  function Neighbour(p: Pos, d: Direction): (r: Pos)
    ensures Distance(p, r) == 1
  {
    match d
    case Up => Pos(p.x, p.y + 1, p.z)
    case Down => Pos(p.x, p.y - 1, p.z)
    case Left => Pos(p.x + 1, p.y, p.z)
    case Right => Pos(p.x - 1, p.y, p.z)
    case Front => Pos(p.x, p.y, p.z - 1)
    case Back => Pos(p.x, p.y, p.z + 1)
  }

  /** The number of unit steps between voxels p and q along the grid. */
  function Distance(p: Pos, q: Pos): nat {
    Abs(p.x - q.x) + Abs(p.y - q.y) + Abs(p.z - q.z)
  }

  function Abs(v: int): nat {
    if v < 0 then -v else v
  }

  /** The face opposite face d. */
  function Opposite(d: Direction): Direction {
    match d
    case Up => Down
    case Down => Up
    case Left => Right
    case Right => Left
    case Front => Back
    case Back => Front
  }

  /** Stepping across a face and back across the opposite face returns to
      the start, so the two voxels sharing a face see each other across it. */
  lemma NeighbourOpposite(p: Pos, d: Direction)
    ensures Opposite(d) != d && Opposite(Opposite(d)) == d
    ensures Neighbour(Neighbour(p, d), Opposite(d)) == p
  {
  }

  /** Whether p is an occupied voxel of the chunk; positions beyond the edge
      count as empty. */
  predicate Solid(words: seq<bv32>, p: Pos)
    requires |words| == WordCount
  {
    p.InChunk() && Occupied(words, p)
  }

  /** Whether face d of voxel p is visible: p is solid and its neighbour
      across d is not. */
  predicate Exposed(words: seq<bv32>, p: Pos, d: Direction)
    requires |words| == WordCount
  {
    Solid(words, p) && !Solid(words, Neighbour(p, d))
  }

  /** The face each axis scan tests first: toward the next cross-section
      along x and y, toward the previous one along z. */
  function FirstFace(axis: Axis): Direction {
    match axis
    case X => Left
    case Y => Up
    case Z => Front
  }

  /** The opposite face, tested second. */
  function SecondFace(axis: Axis): Direction {
    match axis
    case X => Right
    case Y => Down
    case Z => Back
  }

  /** Whether faces of direction d are produced by the scan along `axis`. */
  predicate OnAxis(axis: Axis, d: Direction) {
    d == FirstFace(axis) || d == SecondFace(axis)
  }

  /** The axis whose scan produces faces of direction d. */
  function AxisOf(d: Direction): (axis: Axis)
    ensures OnAxis(axis, d)
    ensures forall other: Axis :: OnAxis(other, d) ==> other == axis
  {
    match d
    case Left | Right => X
    case Up | Down => Y
    case Front | Back => Z
  }

  /** The neighbour across the first face of a cross-section voxel lies in
      the next cross-section along x and y and in the previous one along z
      ... */
  lemma FirstNeighbour(axis: Axis, l: int, a: int, b: int)
    ensures Neighbour(SliceCoords(axis, l, a, b), FirstFace(axis)) ==
      SliceCoords(axis, if axis == Z then l - 1 else l + 1, a, b)
  {
  }

  /** ... and the neighbour across the second face on the other side. */
  lemma SecondNeighbour(axis: Axis, l: int, a: int, b: int)
    ensures Neighbour(SliceCoords(axis, l, a, b), SecondFace(axis)) ==
      SliceCoords(axis, if axis == Z then l + 1 else l - 1, a, b)
  {
  }

  /** Whether q is a quad `remesh` must draw: a visible face of a voxel of
      the chunk, carrying the colour recorded for that voxel. */
  ghost predicate IsFace(words: seq<bv32>, colors: map<Key, Byte>, q: Quad)
    requires |words| == WordCount
  {
    q.pos.InChunk() && Exposed(words, q.pos, q.direction) && ColorAt(colors, q.pos) == Some(q.color)
  }

  /** The quad for face d of voxel p, with p's colour, when that face is
      exposed; nothing otherwise. */
  ghost function FaceIf(words: seq<bv32>, colors: map<Key, Byte>, p: Pos, d: Direction): seq<Quad>
    requires |words| == WordCount && Coloured(words, colors) && p.InChunk()
  {
    if Exposed(words, p, d) then [Quad(d, p, colors[ColorKey(p)])] else []
  }

  /** The quads of the voxel at bit b of word a of cross-section l. */
  ghost function CellFaces(words: seq<bv32>, colors: map<Key, Byte>, axis: Axis, l: int, a: int, b: int): seq<Quad>
    requires |words| == WordCount && Coloured(words, colors)
    requires 0 <= l < 32 && 0 <= a < 32 && 0 <= b < 32
  {
    var p := SliceCoords(axis, l, a, b);
    FaceIf(words, colors, p, FirstFace(axis)) + FaceIf(words, colors, p, SecondFace(axis))
  }

  /** Whether cell (l, a, b) comes before cell (l', a', b') in the order
      the scan visits them: by cross-section, then word, then bit. */
  predicate Before(l: int, a: int, b: int, l': int, a': int, b': int) {
    l < l' || (l == l' && (a < a' || (a == a' && b < b')))
  }

  /** Bounds of a scan position: (l, a, b) names the cell the scan along an
      axis is about to visit, (32, 0, 0) the end of the scan. */
  predicate ScanPoint(l: int, a: int, b: int) {
    0 <= l <= 32 && 0 <= a <= 32 && 0 <= b <= 32 && (l == 32 ==> a == 0 && b == 0) && (a == 32 ==> b == 0)
  }

  /** The quads the scan along `axis` has emitted before visiting cell
      (l, a, b). */
  ghost function Scanned(words: seq<bv32>, colors: map<Key, Byte>, axis: Axis, l: int, a: int, b: int): seq<Quad>
    requires |words| == WordCount && Coloured(words, colors) && ScanPoint(l, a, b)
    decreases l, a, b
  {
    if b > 0 then Scanned(words, colors, axis, l, a, b - 1) + CellFaces(words, colors, axis, l, a, b - 1)
    else if a > 0 then Scanned(words, colors, axis, l, a - 1, 32)
    else if l > 0 then Scanned(words, colors, axis, l - 1, 32, 0)
    else []
  }

  /** Everything one `remesh` call appends: the complete scans along X, then
      Y, then Z; at most six faces per voxel. */
  ghost function Mesh(words: seq<bv32>, colors: map<Key, Byte>): (r: seq<Quad>)
    requires |words| == WordCount && Coloured(words, colors)
    ensures |r| <= 6 * 32768
  {
    ScannedLength(words, colors, X, 32, 0, 0);
    ScannedLength(words, colors, Y, 32, 0, 0);
    ScannedLength(words, colors, Z, 32, 0, 0);
    Scanned(words, colors, X, 32, 0, 0) + Scanned(words, colors, Y, 32, 0, 0) + Scanned(words, colors, Z, 32, 0, 0)
  }

  /** The scan emits at most two quads for each cell visited so far. */
  lemma {:induction false} ScannedLength(words: seq<bv32>, colors: map<Key, Byte>, axis: Axis, l: int, a: int, b: int)
    requires |words| == WordCount && Coloured(words, colors) && ScanPoint(l, a, b)
    ensures |Scanned(words, colors, axis, l, a, b)| <= 2 * (l * 1024 + a * 32 + b)
    decreases l, a, b, 1
  {
    if b > 0 {
      ScannedLength(words, colors, axis, l, a, b - 1);
      ScannedStepLength(words, colors, axis, l, a, b);
    } else {
      RowStartLength(words, colors, axis, l, a);
    }
  }

  /** The scan reaches the start of a word with what it had at the end of
      the previous word, or of the previous cross-section. */
  lemma RowStart(words: seq<bv32>, colors: map<Key, Byte>, axis: Axis, l: int, a: int)
    requires |words| == WordCount && Coloured(words, colors) && ScanPoint(l, a, 0)
    ensures a > 0 ==> Scanned(words, colors, axis, l, a, 0) == Scanned(words, colors, axis, l, a - 1, 32)
    ensures a == 0 && l > 0 ==> Scanned(words, colors, axis, l, 0, 0) == Scanned(words, colors, axis, l - 1, 32, 0)
    ensures a == 0 && l == 0 ==> Scanned(words, colors, axis, l, 0, 0) == []
  {
  }

  /** The bound at the start of word a of cross-section l. */
  lemma {:induction false} RowStartLength(words: seq<bv32>, colors: map<Key, Byte>, axis: Axis, l: int, a: int)
    requires |words| == WordCount && Coloured(words, colors) && ScanPoint(l, a, 0)
    ensures |Scanned(words, colors, axis, l, a, 0)| <= 2 * (l * 1024 + a * 32)
    decreases l, a, 0, 0
  {
    RowStart(words, colors, axis, l, a);
    if a > 0 {
      ScannedLength(words, colors, axis, l, a - 1, 32);
    } else if l > 0 {
      RowStartLength(words, colors, axis, l - 1, 32);
    }
  }

  /** Visiting one cell adds at most two quads. */
  lemma ScannedStepLength(words: seq<bv32>, colors: map<Key, Byte>, axis: Axis, l: int, a: int, b: int)
    requires |words| == WordCount && Coloured(words, colors) && ScanPoint(l, a, b) && b > 0
    ensures |Scanned(words, colors, axis, l, a, b)| <= |Scanned(words, colors, axis, l, a, b - 1)| + 2
  {
    CellFacesLength(words, colors, axis, l, a, b - 1);
  }

  lemma CellFacesLength(words: seq<bv32>, colors: map<Key, Byte>, axis: Axis, l: int, a: int, b: int)
    requires |words| == WordCount && Coloured(words, colors)
    requires 0 <= l < 32 && 0 <= a < 32 && 0 <= b < 32
    ensures |CellFaces(words, colors, axis, l, a, b)| <= 2
  {
  }

  lemma AppendTwo(s: seq<Quad>, xs: seq<Quad>, ys: seq<Quad>)
    ensures s + xs + ys == s + (xs + ys)
  {
  }

  lemma AppendThree(s: seq<Quad>, xs: seq<Quad>, ys: seq<Quad>, zs: seq<Quad>)
    ensures s + xs + ys + zs == s + (xs + ys + zs)
  {
  }

  /** No quad appears twice. */
  ghost predicate Distinct(s: seq<Quad>) {
    forall i, j :: 0 <= i < j < |s| ==> s[i] != s[j]
  }

  lemma DistinctConcat(s: seq<Quad>, t: seq<Quad>)
    requires Distinct(s) && Distinct(t)
    requires forall q :: q in s ==> q !in t
    ensures Distinct(s + t)
  {
    forall i, j | 0 <= i < j < |s + t|
      ensures (s + t)[i] != (s + t)[j]
    {
      if j >= |s| && i < |s| {
        assert (s + t)[i] in s && (s + t)[j] in t;
      }
    }
  }

  // ---------------------------------------------------------------------
  // Which quads each part of the scan holds

  /** The cell at (l, a, b) holds the quads on its axis whose voxel it is. */
  lemma CellFacesMember(words: seq<bv32>, colors: map<Key, Byte>, axis: Axis, l: int, a: int, b: int, q: Quad)
    requires |words| == WordCount && Coloured(words, colors)
    requires 0 <= l < 32 && 0 <= a < 32 && 0 <= b < 32
    ensures q in CellFaces(words, colors, axis, l, a, b) <==>
      OnAxis(axis, q.direction) && IsFace(words, colors, q) &&
      Layer(axis, q.pos) == l && Row(axis, q.pos) == a && Column(axis, q.pos) == b
  {
    SliceCoordsInverse(axis, l, a, b, q.pos);
  }

  lemma CellFacesDistinct(words: seq<bv32>, colors: map<Key, Byte>, axis: Axis, l: int, a: int, b: int)
    requires |words| == WordCount && Coloured(words, colors)
    requires 0 <= l < 32 && 0 <= a < 32 && 0 <= b < 32
    ensures Distinct(CellFaces(words, colors, axis, l, a, b))
  {
  }

  /** The three projections of a voxel name a cell of the scan. */
  lemma ProjectionBounds(axis: Axis, p: Pos)
    requires p.InChunk()
    ensures 0 <= Layer(axis, p) < 32 && 0 <= Row(axis, p) < 32 && 0 <= Column(axis, p) < 32
  {
  }

  /** Every quad of cell (l, a, b) belongs to the voxel of that cell. */
  lemma CellFacesAt(words: seq<bv32>, colors: map<Key, Byte>, axis: Axis, l: int, a: int, b: int, q: Quad)
    requires |words| == WordCount && Coloured(words, colors)
    requires 0 <= l < 32 && 0 <= a < 32 && 0 <= b < 32
    requires q in CellFaces(words, colors, axis, l, a, b)
    ensures Layer(axis, q.pos) == l && Row(axis, q.pos) == a && Column(axis, q.pos) == b
  {
    CellFacesMember(words, colors, axis, l, a, b, q);
  }

  /** Whether q is among the quads of the cell its own voxel occupies. */
  ghost predicate OwnCell(words: seq<bv32>, colors: map<Key, Byte>, axis: Axis, q: Quad)
    requires |words| == WordCount && Coloured(words, colors)
  {
    var l, a, b := Layer(axis, q.pos), Row(axis, q.pos), Column(axis, q.pos);
    0 <= l < 32 && 0 <= a < 32 && 0 <= b < 32 && q in CellFaces(words, colors, axis, l, a, b)
  }

  /** A quad is among those of cell (l, a, b) exactly when that cell is its own. */
  lemma InOwnCell(words: seq<bv32>, colors: map<Key, Byte>, axis: Axis, l: int, a: int, b: int, q: Quad)
    requires |words| == WordCount && Coloured(words, colors)
    requires 0 <= l < 32 && 0 <= a < 32 && 0 <= b < 32
    ensures q in CellFaces(words, colors, axis, l, a, b) <==>
      OwnCell(words, colors, axis, q) && Layer(axis, q.pos) == l && Row(axis, q.pos) == a && Column(axis, q.pos) == b
  {
    if q in CellFaces(words, colors, axis, l, a, b) {
      CellFacesAt(words, colors, axis, l, a, b, q);
    }
  }

  /** Before visiting cell (l, a, b), the scan has emitted exactly the quads
      of the earlier cells. */
  lemma {:induction false} ScannedCells(words: seq<bv32>, colors: map<Key, Byte>, axis: Axis, l: int, a: int, b: int, q: Quad)
    requires |words| == WordCount && Coloured(words, colors) && ScanPoint(l, a, b)
    ensures q in Scanned(words, colors, axis, l, a, b) <==>
      OwnCell(words, colors, axis, q) && Before(Layer(axis, q.pos), Row(axis, q.pos), Column(axis, q.pos), l, a, b)
    decreases l, a, b
  {
    var layer, row, column := Layer(axis, q.pos), Row(axis, q.pos), Column(axis, q.pos);
    if b > 0 {
      var prefix, cell := Scanned(words, colors, axis, l, a, b - 1), CellFaces(words, colors, axis, l, a, b - 1);
      ScannedCells(words, colors, axis, l, a, b - 1, q);
      InOwnCell(words, colors, axis, l, a, b - 1, q);
      assert Scanned(words, colors, axis, l, a, b) == prefix + cell;
    } else if a > 0 {
      ScannedCells(words, colors, axis, l, a - 1, 32, q);
      assert Scanned(words, colors, axis, l, a, 0) == Scanned(words, colors, axis, l, a - 1, 32);
    } else if l > 0 {
      ScannedCells(words, colors, axis, l - 1, 32, 0, q);
      assert Scanned(words, colors, axis, l, 0, 0) == Scanned(words, colors, axis, l - 1, 32, 0);
    }
  }

  /** The scan emits, before visiting cell (l, a, b), exactly the visible
      faces on its axis of the voxels of earlier cells. */
  lemma ScannedMember(words: seq<bv32>, colors: map<Key, Byte>, axis: Axis, l: int, a: int, b: int, q: Quad)
    requires |words| == WordCount && Coloured(words, colors) && ScanPoint(l, a, b)
    ensures q in Scanned(words, colors, axis, l, a, b) <==>
      OnAxis(axis, q.direction) && IsFace(words, colors, q) &&
      Before(Layer(axis, q.pos), Row(axis, q.pos), Column(axis, q.pos), l, a, b)
  {
    ScannedCells(words, colors, axis, l, a, b, q);
    var layer, row, column := Layer(axis, q.pos), Row(axis, q.pos), Column(axis, q.pos);
    if q.pos.InChunk() {
      ProjectionBounds(axis, q.pos);
      CellFacesMember(words, colors, axis, layer, row, column, q);
    }
  }

  /** A quad emitted before cell (l, a, b) is not one of that cell's. */
  lemma EarlierNotInCell(words: seq<bv32>, colors: map<Key, Byte>, axis: Axis, l: int, a: int, b: int, q: Quad)
    requires |words| == WordCount && Coloured(words, colors)
    requires 0 <= l < 32 && 0 <= a < 32 && 0 <= b < 32
    requires q in Scanned(words, colors, axis, l, a, b)
    ensures q !in CellFaces(words, colors, axis, l, a, b)
  {
    ScannedCells(words, colors, axis, l, a, b, q);
    if q in CellFaces(words, colors, axis, l, a, b) {
      CellFacesAt(words, colors, axis, l, a, b, q);
    }
  }

  /** ... and emits each of them once. */
  lemma {:induction false} ScannedDistinct(words: seq<bv32>, colors: map<Key, Byte>, axis: Axis, l: int, a: int, b: int)
    requires |words| == WordCount && Coloured(words, colors) && ScanPoint(l, a, b)
    ensures Distinct(Scanned(words, colors, axis, l, a, b))
    decreases l, a, b, 1
  {
    if b > 0 {
      ScannedDistinct(words, colors, axis, l, a, b - 1);
      ScannedStepDistinct(words, colors, axis, l, a, b);
    } else {
      RowStartDistinct(words, colors, axis, l, a);
    }
  }

  /** The same at the start of word a of cross-section l. */
  lemma {:induction false} RowStartDistinct(words: seq<bv32>, colors: map<Key, Byte>, axis: Axis, l: int, a: int)
    requires |words| == WordCount && Coloured(words, colors) && ScanPoint(l, a, 0)
    ensures Distinct(Scanned(words, colors, axis, l, a, 0))
    decreases l, a, 0, 0
  {
    if a > 0 {
      ScannedDistinct(words, colors, axis, l, a - 1, 32);
      assert Scanned(words, colors, axis, l, a, 0) == Scanned(words, colors, axis, l, a - 1, 32);
    } else if l > 0 {
      RowStartDistinct(words, colors, axis, l - 1, 32);
      assert Scanned(words, colors, axis, l, 0, 0) == Scanned(words, colors, axis, l - 1, 32, 0);
    }
  }

  /** Visiting one cell keeps the scan free of repeats. */
  lemma ScannedStepDistinct(words: seq<bv32>, colors: map<Key, Byte>, axis: Axis, l: int, a: int, b: int)
    requires |words| == WordCount && Coloured(words, colors) && ScanPoint(l, a, b) && b > 0
    requires Distinct(Scanned(words, colors, axis, l, a, b - 1))
    ensures Distinct(Scanned(words, colors, axis, l, a, b))
  {
    var prefix, cell := Scanned(words, colors, axis, l, a, b - 1), CellFaces(words, colors, axis, l, a, b - 1);
    CellFacesDistinct(words, colors, axis, l, a, b - 1);
    forall q | q in prefix
      ensures q !in cell
    {
      EarlierNotInCell(words, colors, axis, l, a, b - 1, q);
    }
    DistinctConcat(prefix, cell);
  }

  // ---------------------------------------------------------------------
  // The whole mesh

  /** The complete scan along `axis` holds exactly the visible faces whose
      direction lies on that axis. */
  lemma AxisMember(words: seq<bv32>, colors: map<Key, Byte>, axis: Axis, q: Quad)
    requires |words| == WordCount && Coloured(words, colors)
    ensures q in Scanned(words, colors, axis, 32, 0, 0) <==> OnAxis(axis, q.direction) && IsFace(words, colors, q)
  {
    ScannedMember(words, colors, axis, 32, 0, 0, q);
  }

  /** `remesh` draws exactly the visible faces: a quad is in the mesh if and
      only if it is a visible face of an occupied voxel with that voxel's
      colour. */
  lemma MeshMember(words: seq<bv32>, colors: map<Key, Byte>, q: Quad)
    requires |words| == WordCount && Coloured(words, colors)
    ensures q in Mesh(words, colors) <==> IsFace(words, colors, q)
  {
    AxisMember(words, colors, X, q);
    AxisMember(words, colors, Y, q);
    AxisMember(words, colors, Z, q);
    var axis := AxisOf(q.direction);
  }

  /** Quads of different axis scans have different directions. */
  lemma AxesDisjoint(words: seq<bv32>, colors: map<Key, Byte>, axis: Axis, other: Axis, q: Quad)
    requires |words| == WordCount && Coloured(words, colors) && axis != other
    requires q in Scanned(words, colors, axis, 32, 0, 0)
    ensures q !in Scanned(words, colors, other, 32, 0, 0)
  {
    AxisMember(words, colors, axis, q);
    AxisMember(words, colors, other, q);
    var owner := AxisOf(q.direction);
  }

  /** ... and draws each of them once. */
  lemma MeshDistinct(words: seq<bv32>, colors: map<Key, Byte>)
    requires |words| == WordCount && Coloured(words, colors)
    ensures Distinct(Mesh(words, colors))
  {
    var xs, ys, zs := Scanned(words, colors, X, 32, 0, 0), Scanned(words, colors, Y, 32, 0, 0), Scanned(words, colors, Z, 32, 0, 0);
    ScannedDistinct(words, colors, X, 32, 0, 0);
    ScannedDistinct(words, colors, Y, 32, 0, 0);
    ScannedDistinct(words, colors, Z, 32, 0, 0);
    forall q | q in xs
      ensures q !in ys
    {
      AxesDisjoint(words, colors, X, Y, q);
    }
    DistinctConcat(xs, ys);
    forall q | q in xs + ys
      ensures q !in zs
    {
      if q in xs {
        AxesDisjoint(words, colors, X, Z, q);
      } else {
        AxesDisjoint(words, colors, Y, Z, q);
      }
    }
    DistinctConcat(xs + ys, zs);
  }

  /** An empty chunk has no visible face, so `remesh` appends nothing. */
  lemma EmptyMesh()
    ensures Mesh(EmptyWords(), map[]) == []
  {
    EmptyIsVacant();
    var mesh := Mesh(EmptyWords(), map[]);
    if mesh != [] {
      MeshMember(EmptyWords(), map[], mesh[0]);
      assert false;
    }
  }
}
