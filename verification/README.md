# JpegEBooks image model in Dafny

This project models the image-model library of JpegEBooks
(`JpegEBooks/JpegEBooks.ImageModel`). The library has these parts:

- an exact-match k-d map (`KDMap`);
- a weighted distribution of successor tiles with cumulative-weight sampling (`SuccessorTileModel`);
- neighbourhood masks (`Neighborhoods.VonNeumann`);
- a structural equality comparer for 2-D arrays with arbitrary lower bounds;
- a Markov model that counts, for every pixel of an image, the "subimage" of colours in the pixel's neighbourhood (`MarkovModel`);
- a container with one such model per neighbourhood order (`Model`);
- a directed-graph stub (`Digraph`).

Every class is an immutable datatype, and every mutating method is a pure function from the old state to the new one. Exceptions are `Result` values that carry the .NET exception kind.

Modules:

| file | module | models |
|---|---|---|
| `wrappers.dfy` | `Wrappers`, `Exceptions` | `Option`, `Result`, and the exception kinds the code can throw |
| `grids.dfy` | `Grids` | 2-D arrays with lower bounds, structural equality, 32-bit wrapping hash sums |
| `dictionaries.dfy` | `Dictionaries` | `Dictionary<K, V>` as an insertion-ordered list of pairs: `TryGetValue` and the indexer setter |
| `array_comparer.dfy` | `ArrayComparer` | `TwoDimensionalArrayStructuralEqualityComparer` |
| `neighborhoods.dfy` | `Neighborhoods` | `VonNeumann`, and the Manhattan ball its comment describes |
| `tile_model.dfy` | `SuccessorTileModels` | `SuccessorTileModel` |
| `kdtree.dfy` | `KDTrees` | `KDMap` and its `Node` |
| `markov_model.dfy` | `MarkovModels` | `MarkovModel` over the copied 24-bit pixel buffer |
| `model.dfy` | `Models` | `Model` |
| `digraph.dfy` | `Digraphs` | `Digraph` and `Vertex` |

Modelling choices:

- A 2-D array is a `Grid<T>`. It holds two lower bounds, two lengths and a rectangular `seq<seq<T>>`. The upper bound is the lower bound plus the length minus one.
- `int?` is `Option<int>`.
- Hash codes are summed in unchecked 32-bit arithmetic, so every `+=` is followed by `Wrap32`.
- A dictionary is a `seq` of key/value pairs:
  - a new key is appended;
  - an existing key is overwritten in place;
  - enumeration is in sequence order.
- The k-d map's key type `Coord` is `int`, and a key is a `seq<int>`. Structural equality of keys is sequence equality.
- `default(V)` is passed as the parameter `absent`.
- A tile (`Color`) is a type parameter with equality. `Color.Magenta` is passed as the parameter `magenta`.
- Weights are `real`.
- The random draw `rng.NextDouble()` is a parameter `u`.
- An image is the byte buffer that `LockBits` and `Marshal.Copy` produce, together with its stride, width and height.
- The neighbourhood delegate is a function `int -> Result<Grid<bool>, Exception>`.
- Vertices of the digraph are references. They are indices into an arena of vertex records, so reference equality is index equality.
- The pixel value `b0 << 16 | b1 << 8 | b2` is written as the equal sum `b0 * 65536 + b1 * 256 + b2`. The three bytes occupy disjoint bits, so the two expressions agree. `PackRgb` proves that the bytes can be read back from it.

## Model

| member | source | states |
|---|---|---|
| Neighborhoods.VonNeumann | JpegEBooks/JpegEBooks.ImageModel/Neighborhood.cs:11-32 | Fails exactly for a negative range. Otherwise the mask spans `[-range, range]` in both dimensions (side `2 range + 1`), and cell `(x, y)` is true iff `abs(x + y) <= range`. |
| Neighborhoods.VonNeumannCentre | JpegEBooks/JpegEBooks.ImageModel/Neighborhood.cs:19-27 | The centre `(0, 0)` belongs to every mask of non-negative range. |
| Neighborhoods.VonNeumannZeroIsCentreOnly | JpegEBooks/JpegEBooks.ImageModel/Neighborhood.cs:13-29 | The mask of range 0 is the single true cell at the origin. |
| Neighborhoods.VonNeumannSymmetric | JpegEBooks/JpegEBooks.ImageModel/Neighborhood.cs:24 | The mask is unchanged by swapping the coordinates and by reflection through the centre. |
| Neighborhoods.VonNeumannIsNotManhattanBall | JpegEBooks/JpegEBooks.ImageModel/Neighborhood.cs:23-24 | For every `r > 0`, the mask differs from the Manhattan ball of the comment. The corner `(r, -r)`, at Manhattan distance `2r`, is inside the mask but not the ball. `(r, r)` and `(-r, -r)` are outside the mask. |
| Neighborhoods.ManhattanBall | JpegEBooks/JpegEBooks.ImageModel/Neighborhood.cs:23 | The mask the comment describes: cell `(x, y)` is true iff `abs(x) + abs(y) <= range`, with the same bounds and failure case. |
| Neighborhoods.ManhattanBallSymmetric | JpegEBooks/JpegEBooks.ImageModel/Neighborhood.cs:23 | The Manhattan ball is symmetric under reflecting either axis and under swapping the axes. |
| Neighborhoods.ManhattanBallAgreesOnSameSign | JpegEBooks/JpegEBooks.ImageModel/Neighborhood.cs:23-24 | The code's mask and the Manhattan ball agree wherever both coordinates have the same sign. |
| ArrayComparer.Equals | JpegEBooks/JpegEBooks.ImageModel/TwoDimensionalArrayStructuralEqualityComparer.cs:19-35 | Arrays that differ in any bound are unequal. Otherwise they are equal iff every pair of corresponding elements is equal under the element `Equals`. |
| ArrayComparer.GetHashCode | JpegEBooks/JpegEBooks.ImageModel/TwoDimensionalArrayStructuralEqualityComparer.cs:37-55 | The hash is the 32-bit wrapped sum of the four bounds and every element hash: the grid hash defined in row-major order, although the loops run column by column. |
| ArrayComparer.HashBounds | JpegEBooks/JpegEBooks.ImageModel/TwoDimensionalArrayStructuralEqualityComparer.cs:39-44 | Adding the four bounds one at a time, wrapping each time, gives the wrapped sum of the bounds. |
| ArrayComparer.HashColumn | JpegEBooks/JpegEBooks.ImageModel/TwoDimensionalArrayStructuralEqualityComparer.cs:48-51 | The inner loop adds the hashes of one column, wrapped. |
| Grids.StructurallyEqualReflexive | JpegEBooks/JpegEBooks.ImageModel/TwoDimensionalArrayStructuralEqualityComparer.cs:19-35 | Structural equality is reflexive when the element equality is. |
| Grids.StructurallyEqualSymmetric | JpegEBooks/JpegEBooks.ImageModel/TwoDimensionalArrayStructuralEqualityComparer.cs:19-35 | Structural equality is symmetric when the element equality is. |
| Grids.StructurallyEqualIffEqual | JpegEBooks/JpegEBooks.ImageModel/TwoDimensionalArrayStructuralEqualityComparer.cs:19-35 | With value equality on elements, structural equality is equality of the arrays. |
| Grids.ColumnMajorIsRowMajor | JpegEBooks/JpegEBooks.ImageModel/TwoDimensionalArrayStructuralEqualityComparer.cs:45-53 | Adding the element hashes column by column gives the same sum as adding them row by row. |
| Grids.WrapAdd | JpegEBooks/JpegEBooks.ImageModel/TwoDimensionalArrayStructuralEqualityComparer.cs:39-51 | Wrapping to 32 bits after every `+=` gives the same result as wrapping the exact sum once. |
| Grids.EqualGridsHaveEqualHashes | JpegEBooks/JpegEBooks.ImageModel/TwoDimensionalArrayStructuralEqualityComparer.cs:19-55 | Structurally equal grids hash alike when the element hash respects the element equality, as `IEqualityComparer` demands of `Equals` and `GetHashCode`. |
| Dictionaries.Lookup | JpegEBooks/JpegEBooks.ImageModel/MarkovModel.cs:164-165 | `TryGetValue` finds a value iff the key is present. |
| Dictionaries.Set | JpegEBooks/JpegEBooks.ImageModel/MarkovModel.cs:168 | Setting a present key keeps the key sequence. Setting a new key appends it. Keys stay distinct. |
| Dictionaries.LookupAfterSet | JpegEBooks/JpegEBooks.ImageModel/MarkovModel.cs:164-168 | After `d[k] = v`, `k` maps to `v` and every other key maps to what it did before. |
| Dictionaries.LookupStored | JpegEBooks/JpegEBooks.ImageModel/SuccessorTileModel.cs:44-47 | With distinct keys, every enumerated pair is what a lookup of its key finds. |
| SuccessorTileModels.New | JpegEBooks/JpegEBooks.ImageModel/SuccessorTileModel.cs:12-16 | A new model has no entries and `grandTotal` 0. It satisfies the invariant (`grandTotal` is the sum of the weights) and gives every tile weight 0. |
| SuccessorTileModels.AddWeightSpec | JpegEBooks/JpegEBooks.ImageModel/SuccessorTileModel.cs:23-35 | The tile's weight grows by `w` (created at `w` if absent), `grandTotal` grows by `w`, the tile is then stored, and the invariant (`grandTotal` is the sum of distinct entries' weights) is preserved. |
| SuccessorTileModels.AddWeightOthers | JpegEBooks/JpegEBooks.ImageModel/SuccessorTileModel.cs:23-35 | Every other tile keeps its weight. |
| SuccessorTileModels.TotalWeightAfterSet | JpegEBooks/JpegEBooks.ImageModel/SuccessorTileModel.cs:25-32 | Setting a key's value changes the sum of the weights by the new value minus the old one (0 if absent). |
| SuccessorTileModels.Add | JpegEBooks/JpegEBooks.ImageModel/SuccessorTileModel.cs:18-21 | The tile's weight and `grandTotal` both grow by exactly 1, and the invariant is preserved. |
| SuccessorTileModels.AddOthers | JpegEBooks/JpegEBooks.ImageModel/SuccessorTileModel.cs:18-21 | `Add` leaves every other tile's weight unchanged. |
| SuccessorTileModels.AddAll | JpegEBooks/JpegEBooks.ImageModel/SuccessorTileModel.cs:42-48 | For a source satisfying the invariant, every tile's weight grows by its source weight times `rate`, and `grandTotal` grows by the source total times `rate`. The invariant is preserved. An empty source leaves the target unchanged. |
| SuccessorTileModels.AddEntriesWeight | JpegEBooks/JpegEBooks.ImageModel/SuccessorTileModel.cs:44-47 | After the first `n` iterations of the `foreach`, a tile's weight is its old weight plus the weights of its entries among the first `n`. |
| SuccessorTileModels.AddEntriesTotal | JpegEBooks/JpegEBooks.ImageModel/SuccessorTileModel.cs:44-47 | After the first `n` iterations, `grandTotal` has grown by the sum of the first `n` weights. |
| SuccessorTileModels.AddEntriesValid | JpegEBooks/JpegEBooks.ImageModel/SuccessorTileModel.cs:44-47 | Every iteration of the `foreach` preserves the invariant. |
| SuccessorTileModels.SumAmongScaled | JpegEBooks/JpegEBooks.ImageModel/SuccessorTileModel.cs:46 | Scaling every weight by `rate` scales each tile's sum by `rate`. |
| SuccessorTileModels.SumAmongIsWeightAmong | JpegEBooks/JpegEBooks.ImageModel/SuccessorTileModel.cs:44-47 | With one entry per tile, the sum over a tile's entries is its stored weight. |
| SuccessorTileModels.ScaledWeight | JpegEBooks/JpegEBooks.ImageModel/SuccessorTileModel.cs:44-47 | In a model satisfying the invariant, a tile's scaled entries add up to its weight times `rate`. |
| SuccessorTileModels.PrefixWeightScaled | JpegEBooks/JpegEBooks.ImageModel/SuccessorTileModel.cs:46 | Scaling every weight by `rate` scales the total by `rate`. |
| SuccessorTileModels.ChooseRandomly | JpegEBooks/JpegEBooks.ImageModel/SuccessorTileModel.cs:50-67 | An empty model yields `Color.Magenta`. |
| SuccessorTileModels.WalkStopsAt | JpegEBooks/JpegEBooks.ImageModel/SuccessorTileModel.cs:54-63 | If the walk stops at entry `s` (the draw less the preceding weights is below its weight, and not so at any earlier entry), the loop returns that entry's tile. |
| SuccessorTileModels.WalkRunsOff | JpegEBooks/JpegEBooks.ImageModel/SuccessorTileModel.cs:54-66 | If the walk stops at no entry, the loop falls through to `Color.Magenta`. |
| SuccessorTileModels.ChooseRandomlyFirstFit | JpegEBooks/JpegEBooks.ImageModel/SuccessorTileModel.cs:52-66 | For the draw `u * grandTotal`, the result is the key of the first entry, in enumeration order, where the draw minus the preceding weights is below the entry's weight. If there is no such entry, the result is `magenta`. |
| SuccessorTileModels.PrefixWeightMonotone | JpegEBooks/JpegEBooks.ImageModel/SuccessorTileModel.cs:54-63 | With positive weights, the sum of the preceding weights grows along the enumeration. |
| SuccessorTileModels.StopsAtInterval | JpegEBooks/JpegEBooks.ImageModel/SuccessorTileModel.cs:54-63 | With positive weights and a non-negative draw, the loop stops at entry `i` iff the draw lies in `[prefix(i), prefix(i + 1))`. |
| SuccessorTileModels.WalkFindsEntry | JpegEBooks/JpegEBooks.ImageModel/SuccessorTileModel.cs:54-64 | A draw below the total weight stops the loop at a stored entry. |
| SuccessorTileModels.ChooseRandomlyReturnsStoredTile | JpegEBooks/JpegEBooks.ImageModel/SuccessorTileModel.cs:52-66 | For a model satisfying the invariant with `grandTotal > 0` and `u` in `[0, 1)`, the result is a stored tile. |
| KDTrees.Empty | JpegEBooks/JpegEBooks.ImageModel/KDTree.cs:12-15 | A new map satisfies the invariant and holds nothing. |
| KDTrees.InsertNode | JpegEBooks/JpegEBooks.ImageModel/KDTree.cs:72-120 | Fails only with "position is already occupied" for a stored key. On success, the key set gains exactly `p` and the tree gains exactly one node. |
| KDTrees.Insert | JpegEBooks/JpegEBooks.ImageModel/KDTree.cs:17-34 | A key of the wrong length fails with "position has wrong dimensionality". Into an empty map, the key becomes the single root node. "Already occupied" is raised only for a stored key. On success, the key set gains exactly `p` and the size grows by one. |
| KDTrees.InsertNodeFailsIffPresent | JpegEBooks/JpegEBooks.ImageModel/KDTree.cs:75-119 | In an ordered tree, insertion fails iff the key is already stored, because the descent always reaches a stored twin. |
| KDTrees.InsertNodeKeepsOrder | JpegEBooks/JpegEBooks.ImageModel/KDTree.cs:81-119 | A successful insertion preserves the ordering invariant (left keys strictly less on dimension `depth % k`, right keys greater or equal) and the uniqueness of keys. |
| KDTrees.InsertLeftKeepsOrder | JpegEBooks/JpegEBooks.ImageModel/KDTree.cs:86-101 | Descending left succeeds for a new key and preserves order and uniqueness. |
| KDTrees.InsertRightKeepsOrder | JpegEBooks/JpegEBooks.ImageModel/KDTree.cs:103-118 | Descending right succeeds for a new key and preserves order and uniqueness. |
| KDTrees.InsertNodeContents | JpegEBooks/JpegEBooks.ImageModel/KDTree.cs:89-95 | Inserting a new key adds exactly that key/value pair. No existing key or value changes. |
| KDTrees.InsertSpec | JpegEBooks/JpegEBooks.ImageModel/KDTree.cs:17-34 | On a valid map, `Insert` fails iff the key has the wrong length or is already stored. On success, the map stays valid and its contents are the old contents updated at `p`. |
| KDTrees.FindNode | JpegEBooks/JpegEBooks.ImageModel/KDTree.cs:122-164 | A node found by the search has a key equal to the query. When no key is stored twice, the value found is the value the tree's contents hold for that key. |
| KDTrees.FindNodeContents | JpegEBooks/JpegEBooks.ImageModel/KDTree.cs:122-164 | In a valid tree, the search for a key of length `k` finds exactly the value the contents map holds for it, or nothing. |
| KDTrees.Get | JpegEBooks/JpegEBooks.ImageModel/KDTree.cs:36-55 | An empty map yields the default value. A successful result other than the default comes from a stored key. When no key is stored twice, it is that key's stored value. |
| KDTrees.GetSpec | JpegEBooks/JpegEBooks.ImageModel/KDTree.cs:36-55 | On a valid map, `Get` of a key of length `k` is its stored value, or the default when it is absent. |
| KDTrees.GetAfterInsert | JpegEBooks/JpegEBooks.ImageModel/KDTree.cs:17-55 | After a successful `Insert(p, v)`, `Get(p)` is `v`, and `Get(q)` is unchanged for every other `q` of length `k`. |
| KDTrees.ShortQueryChangesAfterInsert | JpegEBooks/JpegEBooks.ImageModel/KDTree.cs:122-136 | An insertion can change `Get` for a query shorter than `k`. With `k = 2` and `[5, 5]` stored, `Get([7])` yields the default. After `Insert([6, 0])`, the search reaches the new node at depth 1 and throws `IndexOutOfRangeException`. |
| KDTrees.GetZeroDimensions | JpegEBooks/JpegEBooks.ImageModel/KDTree.cs:131 | On a non-empty map with `k == 0`, a non-empty query throws `DivideByZeroException` at `depth % k`. |
| KDTrees.GetEmptyQuery | JpegEBooks/JpegEBooks.ImageModel/KDTree.cs:133 | On a non-empty map with `k > 0`, an empty query throws `IndexOutOfRangeException`. |
| MarkovModels.PackRgb | JpegEBooks/JpegEBooks.ImageModel/MarkovModel.cs:90 | The packed colour lies in `[0, 2^24)`, and each of the three bytes can be read back from it. |
| MarkovModels.OffsetInRange | JpegEBooks/JpegEBooks.ImageModel/MarkovModel.cs:89-90 | For a pixel inside the image, the three bytes at `stride * y + 3 * x` lie inside the buffer. |
| MarkovModels.PixelAt | JpegEBooks/JpegEBooks.ImageModel/MarkovModel.cs:88-92 | A pixel's value is a non-negative 24-bit number, so it never equals the sentinel `-1`. |
| MarkovModels.Extract | JpegEBooks/JpegEBooks.ImageModel/MarkovModel.cs:54-61 | The subimage has exactly the mask's bounds and lengths. |
| MarkovModels.ExtractDeterminesNeighbourhood | JpegEBooks/JpegEBooks.ImageModel/MarkovModel.cs:76-99 | Two equal subimages of the same mask agree on which neighbours lie outside the image and on the colours of those inside. |
| MarkovModels.SubimageEquals | JpegEBooks/JpegEBooks.ImageModel/MarkovModel.cs:108-134 | Subimages with any differing bound are unequal. Otherwise they are equal iff every element matches, with `null` matching only `null`. This is exactly equality of the grids. |
| MarkovModels.SubimageHashCode | JpegEBooks/JpegEBooks.ImageModel/MarkovModel.cs:136-155 | The hash is the 32-bit wrapped sum of the four bounds and of every element (`null` counts 0). |
| MarkovModels.HashBounds | JpegEBooks/JpegEBooks.ImageModel/MarkovModel.cs:138-143 | Adding both lower and both upper bounds, wrapping each time, gives the wrapped sum of the bounds. |
| MarkovModels.HashRow | JpegEBooks/JpegEBooks.ImageModel/MarkovModel.cs:148-151 | The inner loop adds the elements of one row, wrapped. |
| MarkovModels.IncrementCount | JpegEBooks/JpegEBooks.ImageModel/MarkovModel.cs:164-168 | The key's count grows by one, from 0 when absent. The key is then stored, and keys stay distinct. |
| MarkovModels.IncrementOthers | JpegEBooks/JpegEBooks.ImageModel/MarkovModel.cs:164-168 | Every other key keeps its count. |
| MarkovModels.IncrementTotal | JpegEBooks/JpegEBooks.ImageModel/MarkovModel.cs:164-168 | The counts add up to one more. |
| MarkovModels.NewMarkovModel | JpegEBooks/JpegEBooks.ImageModel/MarkovModel.cs:11-17 | A new model stores its order and its neighbourhood delegate. Its dictionary is empty, so every subimage has count 0. |
| MarkovModels.ExtractCell | JpegEBooks/JpegEBooks.ImageModel/MarkovModel.cs:72-99 | Element `[x, y]` of the extracted subimage is `null` off the mask. On the mask it is the sentinel `-1` when the neighbour lies outside the image, and the packed colour of the neighbour otherwise. |
| MarkovModels.ExtractNeighborhoodSubimage | JpegEBooks/JpegEBooks.ImageModel/MarkovModel.cs:52-61 | Fails iff the neighbourhood delegate throws, and then with its exception. Otherwise the subimage has the mask's bounds. |
| MarkovModels.AddPixel | JpegEBooks/JpegEBooks.ImageModel/MarkovModel.cs:158-169 | Fails iff the delegate throws, and then with its exception. The order and the delegate are kept. |
| MarkovModels.AddPixelCounts | JpegEBooks/JpegEBooks.ImageModel/MarkovModel.cs:158-169 | The count of the pixel's subimage grows by exactly one. Every other count is unchanged. The sum of the counts grows by one. |
| MarkovModels.AddPixelsCounts | JpegEBooks/JpegEBooks.ImageModel/MarkovModel.cs:36-49 | After a sequence of pixels, each subimage's count has grown by the number of pixels with that subimage. The counts have grown by the number of pixels in all, and keys stay distinct. |
| MarkovModels.ScanOrderLength | JpegEBooks/JpegEBooks.ImageModel/MarkovModel.cs:36-38 | The loops visit `width * height` pixels. |
| MarkovModels.ScanOrderAt | JpegEBooks/JpegEBooks.ImageModel/MarkovModel.cs:36-38 | Pixel `(x, y)` is visited at step `x * height + y`. |
| MarkovModels.ScanOrderCovers | JpegEBooks/JpegEBooks.ImageModel/MarkovModel.cs:36-38 | The loops visit exactly the pixels of the image. |
| MarkovModels.ScanOrderIncreasing | JpegEBooks/JpegEBooks.ImageModel/MarkovModel.cs:36-38 | The visits are strictly increasing with `x` first, so no pixel is visited twice. |
| MarkovModels.LoadFromImage | JpegEBooks/JpegEBooks.ImageModel/MarkovModel.cs:36-49 | An image without pixels leaves the model unchanged. Loading fails iff the image has pixels and the delegate throws. The order and the delegate are kept. |
| MarkovModels.LoadFromImageCounts | JpegEBooks/JpegEBooks.ImageModel/MarkovModel.cs:36-49 | Each subimage's count grows by the number of image pixels whose neighbourhood it is. The counts grow by `width * height` in all. |
| MarkovModels.ProgressStep | JpegEBooks/JpegEBooks.ImageModel/MarkovModel.cs:45 | `AddPixel` at `(x, y)` counts exactly the next pixel in scan order, or throws the delegate's exception. |
| MarkovModels.LoadColumn | JpegEBooks/JpegEBooks.ImageModel/MarkovModel.cs:38-48 | The inner loop counts column `x`, or stops with the delegate's exception when the column is not empty. |
| MarkovModels.LoadPixels | JpegEBooks/JpegEBooks.ImageModel/MarkovModel.cs:36-49 | The nested loops, calling `AddPixel` per pixel, compute exactly `LoadFromImage`. |
| Models.ArrayLength | JpegEBooks/JpegEBooks.ImageModel/Model.cs:10 | `new MarkovModel[maxN + 1]` throws `OverflowException` exactly for `maxN < -1` and, by 32-bit wrap-around, for `maxN == int.MaxValue`. Otherwise it has `maxN + 1` slots. |
| Models.New | JpegEBooks/JpegEBooks.ImageModel/Model.cs:8-16 | The constructor as written: `maxN + 1` slots, slot `i < maxN` holding a new submodel of order `i` with the given neighbourhood, and slot `maxN` left `null`. |
| Models.NewIntended | JpegEBooks/JpegEBooks.ImageModel/Model.cs:8-16 | The corrected constructor: every slot `i <= maxN` holds a new submodel of order `i`. |
| Models.LoadFrom | JpegEBooks/JpegEBooks.ImageModel/Model.cs:20-23 | The `foreach` loop keeps the number of slots and never touches the slots before its start. If it ends without an exception, every slot from its start on holds a submodel. |
| Models.LoadImage | JpegEBooks/JpegEBooks.ImageModel/Model.cs:18-24 | `LoadImage` keeps the number of slots. Without an exception, every slot holds a submodel. |
| Models.LoadFromUpTo | JpegEBooks/JpegEBooks.ImageModel/Model.cs:20-23 | Slots that load cleanly are loaded in index order, each with the image, and nothing else changes. |
| Models.NewThenLoadImageFails | JpegEBooks/JpegEBooks.ImageModel/Model.cs:10-24 | As written, for `0 <= maxN < int.MaxValue` and a neighbourhood that succeeds for every order below `maxN`, loading an image into a new model loads orders `0` to `maxN - 1`. It then throws `NullReferenceException` at the `null` last slot. |
| Models.NewIntendedThenLoadImageSucceeds | JpegEBooks/JpegEBooks.ImageModel/Model.cs:10-24 | With the corrected constructor and valid neighbourhoods, loading succeeds and loads every order `0` to `maxN`. |
| Digraphs.Empty | JpegEBooks/JpegEBooks.ImageModel/Digraph.cs:11-14 | A new graph contains no vertex. |
| Digraphs.Add | JpegEBooks/JpegEBooks.ImageModel/Digraph.cs:16-19 | Afterwards `Contains(v)` holds, and every other vertex is contained iff it was before. |
| Digraphs.AddIdempotent | JpegEBooks/JpegEBooks.ImageModel/Digraph.cs:16-24 | Adding a vertex twice equals adding it once. Adding a contained vertex changes nothing. |
| Digraphs.AddCommutes | JpegEBooks/JpegEBooks.ImageModel/Digraph.cs:16-19 | The order of two `Add` calls does not matter. |
| Digraphs.DrawEdge | JpegEBooks/JpegEBooks.ImageModel/Digraph.cs:26-29 | `DrawEdge` changes neither the vertex set nor any vertex record. |
| Digraphs.DrawEdgesKeepEdgesUnset | JpegEBooks/JpegEBooks.ImageModel/Digraph.cs:26-29 | No sequence of `DrawEdge` calls sets an edge list or changes the graph. |
| Digraphs.NewVertex | JpegEBooks/JpegEBooks.ImageModel/Digraph.cs:35-38 | The constructor as written returns a fresh reference and leaves every existing vertex unchanged. The new vertex's label is `default(VertexLabel)` whatever its argument, and both edge lists are `null`. |
| Digraphs.NewVertexLosesLabel | JpegEBooks/JpegEBooks.ImageModel/Digraph.cs:35-38 | For any label other than the default, the vertex built by the constructor as written does not carry the label it was given. |
| Digraphs.NewVertexIntended | JpegEBooks/JpegEBooks.ImageModel/Digraph.cs:35-38 | The corrected constructor stores its argument as the label. |
| Digraphs.NewVertexIntendedKeepsLabel | JpegEBooks/JpegEBooks.ImageModel/Digraph.cs:35-38 | The two constructors differ exactly in the label of the new vertex. |
| Digraphs.Predecessors | JpegEBooks/JpegEBooks.ImageModel/Digraph.cs:40-46 | Throws `ArgumentNullException` iff the vertex's `InEdges` is `null`. Otherwise it returns that list. |
| Digraphs.Successors | JpegEBooks/JpegEBooks.ImageModel/Digraph.cs:48-54 | Throws `ArgumentNullException` iff the vertex's `OutEdges` is `null`. Otherwise it returns that list. |
| Digraphs.EdgesAlwaysFail | JpegEBooks/JpegEBooks.ImageModel/Digraph.cs:35-59 | In every arena built by the constructor, `Predecessors` and `Successors` throw for every vertex. |

## Left out

- `Bitmap.LockBits`, `Marshal.Copy` and `UnlockBits` (GDI+ I/O). The model takes the copied buffer, its stride, width and height as an `Image`. `WellFormed` requires `stride * (height - 1) + 3 * width <= |bytes|`; the buffer `LockBits` produces always meets this.
- Negative strides (bottom-up bitmaps). `WellFormed` requires a non-negative stride.
- `JpegEBooks/Program.cs` and `JpegEBooks/BuildModel/Program.cs`: command-line wiring, file streams, serialisation and `Bitmap.Save`.
- `System.Random` and IEEE double rounding in `SuccessorTileModel`. The draw `u` is a parameter, and weights are exact reals.
- `SuccessorTileModels.AddAll`: the weight and total claims are stated only for a source whose `grandTotal` is the sum of its weights with distinct keys. That is the invariant every model built by `New`, `Add` and `AddAll` keeps.
- `SuccessorTileModels.AddAll`: `AddAll(this)` is not modelled. The model reads the source as a value, while the code would modify the dictionary it enumerates.
- The internals of `Color` equality and hashing. Tiles are an opaque type with equality.
- The enumeration order of `Dictionary`. It is modelled as insertion order, which is what .NET gives when nothing is removed.
- `null` elements of a reference element type in `TwoDimensionalArrayStructuralEqualityComparer`: `x[i, j].Equals(…)` and `obj[i, j].GetHashCode()` throw `NullReferenceException` on them. The model's `eq` and `h` are total functions, so it never throws there.
- Null arguments, and the reference-equality shortcut of `SubimageComparer.Equals`. Arrays are values, so a reference-equal pair is an equal pair.
- 32-bit overflow of the counts in `MarkovModel`, of the pixel offset `stride * imageY + imageX * 3`, of `2 * range + 1` in `VonNeumann`, of `center + offset`, and of the weights. All of these are unbounded integers or reals. Only the hash sums and the array length in `Model` wrap.
- `KDTrees.Insert`, `KDTrees.Get`: both require that every stored key has length `k`. Every map built by `Empty` and `Insert` has this property.
- `KDTrees.GetSpec`: the lookup property is stated for queries of length `k`. Shorter queries can throw `IndexOutOfRangeException`, as `KDTrees.GetEmptyQuery` shows. Longer queries descend by their first `k` coordinates.
- `KDTrees.GetAfterInsert`: the unchanged-lookup clause is stated for queries of length `k`. An insertion can turn the default result for a shorter query into `IndexOutOfRangeException`, as `KDTrees.ShortQueryChangesAfterInsert` shows. With `k == 0` it can turn the default for any non-empty query into `DivideByZeroException`.
- The default `Coord` is `int` rather than any `IComparable<Coord>`.
- Range search, edge drawing, dependency-ordered generation and predecessor chains. They are not present in the code.
- The mutable `Left`/`Right` fields of `Node`. Insertion returns a new tree that shares every untouched subtree.

## Findings

| source | as written | input that shows it | evidently intended | confidence | as-written member | corrected member |
|---|---|---|---|---|---|---|
| JpegEBooks/JpegEBooks.ImageModel/Neighborhood.cs:23-24 | the mask tests `Math.Abs(x + y) <= range`, while the comment promises Manhattan distance | `range = 1`: cell `(1, -1)` is true although its Manhattan distance is 2, and `(1, 1)` is false | `Math.Abs(x) + Math.Abs(y) <= range` | high (not executed) | Neighborhoods.VonNeumann, Neighborhoods.VonNeumannIsNotManhattanBall | Neighborhoods.ManhattanBall, Neighborhoods.ManhattanBallSymmetric |
| JpegEBooks/JpegEBooks.ImageModel/Digraph.cs:37 | `this.Label = Label;` assigns the property to itself | `new Vertex(5)` for `int` labels has `Label == 0` | `this.Label = label;` | high (not executed) | Digraphs.NewVertex, Digraphs.NewVertexLosesLabel | Digraphs.NewVertexIntended, Digraphs.NewVertexIntendedKeepsLabel |
| JpegEBooks/JpegEBooks.ImageModel/Model.cs:12 | the loop `i < maxN` fills only `maxN` of the `maxN + 1` slots | `new Model(0, Neighborhoods.VonNeumann).LoadImage(image)` throws `NullReferenceException` | `i <= maxN` | high (not executed) | Models.New, Models.NewThenLoadImageFails | Models.NewIntended, Models.NewIntendedThenLoadImageSucceeds |
