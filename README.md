# Voxel chunk

A model of the voxel chunk of a small voxel engine. A chunk is a 32×32×32
grid. Each voxel is either occupied or empty, and the chunk keeps a sparse
colour table beside the grid. The chunk supports four groups of operations:

- `set` changes a single voxel.
- `get_occupied` and `get_color` read a single voxel.
- `slice` cuts a 32×32 cross-section along an axis.
- `remesh` turns the volume into a list of visible unit faces (quads), and
  `count` counts the occupied voxels.

Storage follows the source exactly:

- There are 1024 `u32` row words. The word for (y, z) is at index
  `z*32 + (31-y)`, and voxel x is its bit `0x8000_0000 >> x`.
- The colour table maps the 16-bit key `z*1024 + (31-y)*32 + x` to one byte.

The project has five modules:

- `Layout` (`layout.dfy`) holds the coordinates, the word index, the bit
  mask and the colour key, with the bit-level lemmas about `|`, `&` and the
  shifts.
- `Volume` (`volume.dfy`) says what the storage means:
  - which voxels are occupied, and their colours;
  - the single-voxel update done by `set`;
  - the coordinates each slice bit describes;
  - the population count.
- `Meshing` (`meshing.dfy`) defines the faces:
  - when a face is visible;
  - the order in which the three axis scans visit the cells;
  - the complete mesh, with its membership and no-duplicate properties.
- `Chunks` (`chunk.dfy`) is the `Chunk` class with its imperative
  operations:
  - the 1024 words live in an `array<bv32>`, and the colour table in a `map`
    field;
  - `set` updates both in place;
  - `slice` writes one row of a buffer;
  - `remesh` fills a local 34×32 buffer per axis, scans it and appends to the
    caller's sequence;
  - `count` sums the per-word population counts.
- `ChunkTests` (`chunk_tests.dfy`) holds the two unit tests, each as a method
  whose result is the verdict of its assertions, proved true.

The class invariant `Valid` gives every occupied voxel a colour entry.
`empty` establishes it and `set` keeps it, because `set` always records a
colour for the voxel it touches and never removes an entry. This is why the `unwrap` of the colour in `remesh` never
fails: the model's `GetColor(..).value` carries that as a precondition.

## Model

| member | source | states |
|---|---|---|
| Chunks.Chunk.Empty | src/engine/voxel/chunk.rs:32-37 | all words are zero and the colour table is empty; the chunk invariant (every occupied voxel coloured) holds |
| Chunks.Chunk.Set | src/engine/voxel/chunk.rs:41-54 | out-of-range coordinates are excluded; afterwards the voxel reads back `state` and colour `Some(color)` even when `state` is false; the words and table are exactly the single-voxel updates WithVoxel and WithColor; the invariant is kept |
| Chunks.Chunk.GetOccupied | src/engine/voxel/chunk.rs:58-64 | the result is whether the voxel is occupied in the chunk's words |
| Chunks.Chunk.GetColor | src/engine/voxel/chunk.rs:66-74 | the `u16`-truncated key lookup returns exactly the voxel's colour-table entry, `None` when absent |
| Chunks.Chunk.Slice | src/engine/voxel/chunk.rs:201-225 | bit b of word a is set exactly when voxel SliceCoords(axis, n, a, b) is occupied, or-ed with the old bit along X and replacing it along Y and Z; no other buffer row changes |
| Chunks.Chunk.OrColumn | src/engine/voxel/chunk.rs:207-209 | after the inner X loop for word y, every bit z of that word has the old bit or-ed with the occupancy of (n, 31-y, z) |
| Chunks.OrMoved | src/engine/voxel/chunk.rs:208 | the statement computes the bitwise or of u and `Extracted(v, n, z)`: it or-s exactly bit z, set when bit n of the row word is, into the buffer word and leaves the other bits |
| Chunks.Chunk.Remesh | src/engine/voxel/chunk.rs:76-199 | the result is the caller's sequence followed by the complete mesh of the chunk; the chunk is not modified |
| Chunks.Chunk.Sweep | src/engine/voxel/chunk.rs:79-185 | one axis pass (X at lines 79-113, Y at 115-149, Z at 151-185) appends that axis's complete scan and leaves the sentinel rows 0 and 33 empty for the next pass |
| Chunks.Chunk.Load | src/engine/voxel/chunk.rs:80-154 | after the slicing loop of an axis (lines 80-82, 116-118, 152-154), bit b of word a of buffer row m is set exactly when voxel SliceCoords(axis, m-1, a, b) is occupied, and rows 0 and 33 are still empty |
| Chunks.Chunk.Scan | src/engine/voxel/chunk.rs:84-113 | the triple loop appends the scan of every cell along the axis, in loop order |
| Chunks.Chunk.ScanRow | src/engine/voxel/chunk.rs:88-111 | the inner loop over b appends the faces of the 32 cells of word a |
| Chunks.Chunk.ScanCell | src/engine/voxel/chunk.rs:89-110 | one cell appends its first-face quad and then its second-face quad, each only when exposed |
| Chunks.Chunk.PushFace | src/engine/voxel/chunk.rs:93-101 | a quad with the voxel's colour is pushed exactly when the middle row has the bit set and the neighbouring row does not, i.e. when that face is exposed |
| Chunks.Chunk.Count | src/engine/voxel/chunk.rs:227-235 | the sum of `count_ones` over all words equals the number of occupied voxels |
| Layout.WordIndex | src/engine/voxel/chunk.rs:50 | the word index lies in [0, 1024) |
| Layout.WordIndexSplit | src/engine/voxel/chunk.rs:50 | z and 31-y are recovered from the word index by division and remainder, so distinct rows never share a word |
| Layout.ColorKey | src/engine/voxel/chunk.rs:47 | keys stay below 0x8000, so the `u16` cast never truncates |
| Layout.ColorKeySplit | src/engine/voxel/chunk.rs:47 | the key splits into the row word index (quotient by 32) and x (remainder) |
| Layout.SetBit | src/engine/voxel/chunk.rs:49-53 | the word `set` writes has bit x equal to `state`, whichever of the two branches runs |
| Layout.SetBitOther | src/engine/voxel/chunk.rs:49-53 | every other bit of that word is unchanged |
| Layout.Extracted | src/engine/voxel/chunk.rs:208 | `((v << n) & 0x8000_0000) >> z` is the mask of voxel z when voxel n of v is occupied and zero otherwise |
| Layout.ExtractedSame | src/engine/voxel/chunk.rs:208 | bit z of that value is bit n of v |
| Layout.ExtractedOther | src/engine/voxel/chunk.rs:208 | every other bit of that value is clear |
| Volume.EmptyIsVacant | src/engine/voxel/chunk.rs:32-37 | no voxel of an empty chunk is occupied, and the empty chunk is coloured |
| Volume.WithVoxel | src/engine/voxel/chunk.rs:49-53 | after `set` there are still 1024 words, and the voxel is occupied exactly when `state` is true |
| Volume.WithVoxelOther | src/engine/voxel/chunk.rs:49-53 | after `set`, every other voxel keeps its occupancy |
| Volume.WithColor | src/engine/voxel/chunk.rs:46-47 | after `set`, the voxel's colour is `Some(color)` and no key has been removed from the table |
| Volume.WithColorOther | src/engine/voxel/chunk.rs:46-47 | after `set`, every other voxel keeps its colour entry |
| Volume.ColorKeyInjective | src/engine/voxel/chunk.rs:47 | two voxels share a colour key if and only if they are the same voxel |
| Volume.SetKeepsColoured | src/engine/voxel/chunk.rs:46-53 | whatever state `set` writes, every occupied voxel still has a colour entry |
| Volume.SliceCoordsInverse | src/engine/voxel/chunk.rs:201-225 | a slice bit (n, a, b) names voxel p if and only if p's offset, word and bit along that axis are n, a and b |
| Volume.PopCount | src/engine/voxel/chunk.rs:231 | the number of set bits among the first k bits of a word is at most k |
| Volume.PopCountZero | src/engine/voxel/chunk.rs:231 | that number is zero exactly when none of the first k bits is set |
| Volume.CountOnes | src/engine/voxel/chunk.rs:231 | `count_ones` of a word is at most 32 |
| Volume.CountOnesZero | src/engine/voxel/chunk.rs:231 | `count_ones` of a word is zero exactly when the word is zero |
| Volume.RowVoxelsCount | src/engine/voxel/chunk.rs:231 | the population count of a word is the number of occupied voxels it holds |
| Volume.OccupiedBelowCount | src/engine/voxel/chunk.rs:230-232 | after i words, the accumulated count is the number of occupied voxels in those words |
| Volume.CountIsOccupied | src/engine/voxel/chunk.rs:227-235 | summing over all 1024 words counts exactly the occupied voxels |
| Volume.EmptyCountsZero | src/engine/voxel/chunk.rs:227-235 | an empty chunk has no occupied voxel, so `count` is zero |
| Meshing.AxisOf | src/engine/voxel/chunk.rs:9-23 | every direction belongs to exactly one axis scan |
| Meshing.Neighbour | src/engine/voxel/chunk.rs:89-91 | the voxel a face looks at is at distance one from the voxel it belongs to |
| Meshing.NeighbourOpposite | src/engine/voxel/chunk.rs:89-91 | each direction has a distinct opposite, and stepping in a direction and then its opposite returns to the start voxel |
| Meshing.FirstNeighbour | src/engine/voxel/chunk.rs:89-91 | the first face tested (Left, Up, Front) looks at buffer row n+1 along X and Y and row n-1 along Z |
| Meshing.SecondNeighbour | src/engine/voxel/chunk.rs:89-91 | the second face tested (Right, Down, Back) looks at the opposite row |
| Meshing.CellFacesMember | src/engine/voxel/chunk.rs:93-110 | a cell emits exactly the exposed faces, on its axis, of its own voxel |
| Meshing.ScannedCells | src/engine/voxel/chunk.rs:84-113 | before a cell is visited, the scan has emitted exactly the quads of the cells visited earlier |
| Meshing.ScannedMember | src/engine/voxel/chunk.rs:84-113 | before a cell is visited, the scan has emitted exactly the exposed, correctly coloured faces on its axis of the cells visited earlier |
| Meshing.ScannedLength | src/engine/voxel/chunk.rs:84-113 | the scan has emitted at most two quads for each cell visited so far |
| Meshing.ScannedDistinct | src/engine/voxel/chunk.rs:84-113 | the scan along one axis never emits a quad twice |
| Meshing.AxisMember | src/engine/voxel/chunk.rs:84-113 | the complete scan along an axis holds exactly the exposed faces whose direction is on that axis |
| Meshing.AxesDisjoint | src/engine/voxel/chunk.rs:76-185 | no quad appears in the scans of two different axes |
| Meshing.Mesh | src/engine/voxel/chunk.rs:76-185 | the three scans together hold at most six faces per voxel of the chunk |
| Meshing.MeshMember | src/engine/voxel/chunk.rs:76-185 | a quad is in the mesh if and only if it is an exposed face of an occupied voxel inside the chunk (neighbour empty or outside), carrying that voxel's colour |
| Meshing.MeshDistinct | src/engine/voxel/chunk.rs:76-185 | the mesh contains each face once |
| Meshing.EmptyMesh | src/engine/voxel/chunk.rs:76-185 | an empty chunk's mesh is empty |
| ChunkTests.SetGetCase | src/engine/voxel/chunk.rs:243-246 | in a fresh chunk, a voxel set to occupied reads back as occupied |
| ChunkTests.SetGet | src/engine/voxel/chunk.rs:238-250 | the assertion holds at every one of the 32768 positions |
| ChunkTests.TargetBit | src/engine/voxel/chunk.rs:254-256 | the expected slice has every bit set except bit `1 << 30` (bit 1 counting from the top) of word 30 |
| ChunkTests.FillStep | src/engine/voxel/chunk.rs:264-268 | each `set` of the filling loops occupies exactly one more voxel of the plane |
| ChunkTests.ClearHole | src/engine/voxel/chunk.rs:270 | clearing the hole leaves the plane without exactly that voxel |
| ChunkTests.Plane | src/engine/voxel/chunk.rs:262-270 | the test chunk holds exactly the plane at offset n, minus the hole |
| ChunkTests.SliceCase | src/engine/voxel/chunk.rs:261-275 | the slice of that chunk equals the target, also along X, where the buffer is reused |
| ChunkTests.SliceTest | src/engine/voxel/chunk.rs:252-310 | `assert_eq!(buffer, target)` holds along all three axes at every offset |

## Left out

- `src/main.rs`, `src/game/input.rs` and `src/engine/renderer/renderer.rs`
  are not part of this model. They are windowing, input, GPU, physics and
  concurrency glue.
- `src/engine/voxel/quad.rs` is not part of this model. `Quad` is an
  abstract record of direction, position and colour. `Quad::new` receives the
  colour widened to `usize`, and the model keeps the byte.
- `src/main.rs:110-121` passes a four-byte `[r, g, b, 255]` array as the
  colour, while `set` takes a `u8`. The model follows `set` and keeps one
  byte per voxel.
- `VOXEL_SIZE` is a float constant that no modelled operation uses.
- The commented-out texture-id block (chunk.rs:187-198) is dead code.
- The numeric values of `Direction` are not modelled, because no modelled
  operation reads them.
- The `ahash` hash map becomes a Dafny `map`. Hashing and capacity are not
  modelled.
- `usize` underflow and overflow cannot happen under the bound
  preconditions. The `assert!`s on x, y and z become `requires` clauses.
- `slice` has no explicit check on `n`, and the model requires `n < 32`, as
  every caller guarantees. For `n >= 32` along Y and Z the index is out of
  bounds and the call panics. Along X, a debug build panics on the shift
  overflow, but a release build masks the shift amount to `n % 32` and
  silently returns the slice at offset `n % 32`.
- The buffer shapes differ from the source:
  - the `[[u32; 32]; 34]` buffer of `remesh` is a 34×32 `array2`;
  - `slice` writes one row of an `array2`, where the source writes a
    `&mut [u32; 32]` row;
  - the test's `[u32; 32]` buffer is a 1×32 `array2`.
- `out: &mut Vec<Quad>` is passed in as a sequence and returned extended.
- `remesh` takes `&mut self` in the source. The model's `Remesh` modifies
  nothing, which states that the chunk is unchanged.
- The nested loops of `remesh` and `slice` are split into helper methods
  (`Sweep`, `Load`, `Scan`, `ScanRow`, `ScanCell`, `PushFace`, `OrColumn`),
  and the bit arithmetic of `slice` into `OrMoved`. Each helper
  performs the same loop or statement as the source at the cited lines.
- The emission order of `remesh` is fixed by the ghost function `Mesh`, but
  the stated properties are membership and absence of duplicates. The order
  is an artefact of the loops.
- The scan's neighbour rows are named as in the code, not by position:
  - along X, `left` is row n+1 and `right` is row n-1;
  - along Y, `up` is row n+1 and `down` is row n-1;
  - along Z, `front` is row n-1 and `back` is row n+1.
