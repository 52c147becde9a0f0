# Hex-map topology of the 60-tile board

This project models `app/_components/tileLayout.ts`, the module that builds the
game's fixed 60-tile hex board and answers adjacency questions for move
validation. It proves the board's structural facts in Dafny.

`build60` works in three steps.
1. It enumerates the axial hex disk of radius 5: nested loops over q and r in
   [-5, 5] keep every cell whose |q|, |r| and |-q-r| are at most 5.
2. It sorts those cells by score, highest first, and keeps the first 60.
3. It indexes the kept cells by the string key `q,r`. Tile i gets id
   `String(i)` and the ids of the kept cells one step away along the six axial
   directions (DIRS), in DIRS order.

`isNeighbor(fromId, toId)` finds the tile at index `Number(fromId)`. It answers
false when there is no such tile. Otherwise it answers whether `toId` is in that
tile's neighbour list.

Each cell's score mixes its distance from the centre with the k-th
pseudo-random draw. The model takes the score as an arbitrary function
`score(cell, k)` with integer values. So every fact proved here holds for any
scores. The real board, `HEX_TILES_60 = build60(1337)`, is `Layout(score)` for
one particular `score`.

Files:
- `wrappers.dfy`: `Option`, which stands for JavaScript's `undefined` results.
- `decimal.dfy`: the integer-to-string and string-to-index conversions the
  module relies on. These are `String(n)`, the template literal `${q}`, and
  `Number(id)` used as an array index.
- `axial.dfy`: axial coordinates, DIRS, adjacency, `key`, and the disk
  enumeration order.
- `tile_layout.dfy`: the imperative steps of `build60` as methods with loops,
  the functions that specify them, the lemmas about the board, and `isNeighbor`.

## Model

| member | source | states |
|---|---|---|
| `Decimal.NatToString` | app/_components/tileLayout.ts:106 | `String(j)` of an index is a non-empty string of decimal digits with no leading zero unless j is 0 |
| `Decimal.ParseNatToString` | app/_components/tileLayout.ts:127 | `Number(fromId)` as an index (`Decimal.ParseIndex`, which reads non-empty digit strings only) applied to `String(n)` gives back n, so an id looks up the tile it names |
| `Decimal.NatToStringInjective` | app/_components/tileLayout.ts:106-110 | distinct indices print as distinct ids, and equal ids come from equal indices |
| `Decimal.IntToString` | app/_components/tileLayout.ts:32-34 | `${q}` starts with '-' exactly for negative q, and never contains ',' |
| `Decimal.IntToStringInjective` | app/_components/tileLayout.ts:32-34 | `${q}` determines q |
| `Axial.DirsShape` | app/_components/tileLayout.ts:13-20 | `Axial.Dirs` holds the six offsets of DIRS in source order; they are six, none zero, no two equal, and the list is closed under negation |
| `Axial.AdjacentIrreflexive` | app/_components/tileLayout.ts:13-20 | no cell lies one DIRS step from itself |
| `Axial.AdjacentSymmetric` | app/_components/tileLayout.ts:13-20 | b is one DIRS step from a exactly when a is one DIRS step from b |
| `Axial.KeySplit` | app/_components/tileLayout.ts:32-34 | `key(q, r)` is `${q},${r}`: it splits at its first ',' into the text of q and the text of r |
| `Axial.CommaPosition` | app/_components/tileLayout.ts:32-34 | the first ',' in a key comes right after the digits of q |
| `Axial.KeyInjective` | app/_components/tileLayout.ts:32-34 | `key(q, r)` equals `key(q', r')` exactly when (q, r) = (q', r') |
| `Axial.RowPrefixMembers` | app/_components/tileLayout.ts:68-77 | the inner loop, up to r, lists exactly the disk cells of row q below r |
| `Axial.RowPrefixDistinct` | app/_components/tileLayout.ts:68-77 | the inner loop lists no cell twice |
| `Axial.DiskPrefixMembers` | app/_components/tileLayout.ts:67-79 | the outer loop, up to q, lists exactly the disk cells of the rows below q |
| `Axial.DiskPrefixDistinct` | app/_components/tileLayout.ts:67-79 | the outer loop lists no cell twice |
| `Axial.RowPrefixSize` | app/_components/tileLayout.ts:68-70 | row q keeps the r' with max(-5, -5-q) <= r' <= min(5, 5-q), counted exactly |
| `Axial.DiskPrefixSize` | app/_components/tileLayout.ts:67-79 | the rows below q hold the sum of 11 - abs(q') cells over those rows |
| `Axial.DiskSize` | app/_components/tileLayout.ts:57 | the radius-5 disk has 91 cells |
| `Axial.DiskEnumeration` | app/_components/tileLayout.ts:64-79 | the enumeration keeps exactly the cells with abs(q), abs(r) and abs(-q-r) at most 5, each once, 91 in all |
| `TileLayout.EnumerateStep` | app/_components/tileLayout.ts:69-77 | one inner-loop step pushes (q, r) with the next draw's score exactly when it passes the disk test |
| `TileLayout.EnumerateDisk` | app/_components/tileLayout.ts:64-79 | the nested loops produce the disk cells in loop order, and the k-th pushed cell carries the score computed from the k-th draw |
| `TileLayout.DiskCellsFacts` | app/_components/tileLayout.ts:64-79 | `all` has 91 cells, all in the disk, at pairwise distinct coordinates |
| `TileLayout.Insert` | app/_components/tileLayout.ts:82 | one insertion step of the sort adds exactly the new cell |
| `TileLayout.InsertSorted` | app/_components/tileLayout.ts:82 | inserting into a list sorted by descending score keeps it sorted |
| `TileLayout.InsertDistinct` | app/_components/tileLayout.ts:82 | inserting a cell at new coordinates keeps coordinates distinct |
| `TileLayout.SortByScore` | app/_components/tileLayout.ts:82 | the sort returns a permutation of its input |
| `TileLayout.SortByScoreFacts` | app/_components/tileLayout.ts:82 | the sort orders cells by descending score and keeps coordinates distinct |
| `TileLayout.Picked` | app/_components/tileLayout.ts:83 | exactly 60 cells are picked |
| `TileLayout.Unpicked` | app/_components/tileLayout.ts:83 | the 31 remaining disk cells are left out |
| `TileLayout.PickedDistinct` | app/_components/tileLayout.ts:83 | the picked cells lie in the disk at pairwise distinct coordinates |
| `TileLayout.PickedTopK` | app/_components/tileLayout.ts:82-83 | picked and unpicked cells together are exactly the disk cells, and no unpicked cell outscores a picked one |
| `TileLayout.IndexByCoord` | app/_components/tileLayout.ts:86-87 | `byCoord` maps each picked key to the last index at those coordinates, and has no other keys; with distinct coordinates it maps each picked cell's key to its own index |
| `TileLayout.IndexOf` | app/_components/tileLayout.ts:105 | the reference search finds an index of a picked cell at c, or reports that none is there |
| `TileLayout.LookupIsSearch` | app/_components/tileLayout.ts:105 | `byCoord.get(key(c))` is defined exactly when a picked cell is at c, and then gives that cell's index |
| `TileLayout.NeighborIndicesStep` | app/_components/tileLayout.ts:104-106 | each DIRS offset adds the found index, or nothing, to the end of the list |
| `TileLayout.NeighborIds` | app/_components/tileLayout.ts:103-107 | the DIRS loop yields `String(j)` for the picked cells one step away, in DIRS order, matching the reference definition |
| `TileLayout.NeighborIndicesFacts` | app/_components/tileLayout.ts:103-107 | j is in the list exactly when picked cell j sits at p plus one of the offsets; the list is no longer than the offsets and has no repeats when they have none |
| `TileLayout.TilesUpTo` | app/_components/tileLayout.ts:97-118 | the first n tiles are tiles 0..n-1 in order |
| `TileLayout.Tiles` | app/_components/tileLayout.ts:97-118 | there is one tile per picked cell, and tile i is built from picked cell i |
| `TileLayout.Layout` | app/_components/tileLayout.ts:123 | the board has 60 tiles |
| `TileLayout.BuildTiles` | app/_components/tileLayout.ts:97-118 | the tile loop produces tile i from picked cell i, with id `String(i)` and its neighbour ids |
| `TileLayout.Build60` | app/_components/tileLayout.ts:60-121 | `build60` returns the board the specification functions describe |
| `TileLayout.LayoutTiles` | app/_components/tileLayout.ts:106-110 | tile ids are "0".."59" in array order, pairwise distinct, and the tiles sit at pairwise distinct disk coordinates |
| `TileLayout.TileNeighbors` | app/_components/tileLayout.ts:103-107 | `String(j)` is in tile i's list exactly when tile j is one DIRS step from tile i, and every entry is the canonical id of a tile |
| `TileLayout.TileNeighborsShape` | app/_components/tileLayout.ts:103-107 | a neighbour list has at most 6 entries, no repeats, and never the tile's own id |
| `TileLayout.TileNeighborsSymmetric` | app/_components/tileLayout.ts:103-107 | j is in i's neighbour list exactly when i is in j's |
| `TileLayout.IsNeighbor` | app/_components/tileLayout.ts:126-130 | answers true only for a fromId that indexes a tile; `TileLayout.IsNeighborMeaning` gives both directions of its meaning on the board |
| `TileLayout.IsNeighborOnTiles` | app/_components/tileLayout.ts:126-130 | on any board built from distinct cells, `isNeighbor` holds exactly when fromId reads as a tile index, toId is a tile's canonical id, and the two tiles are one DIRS step apart |
| `TileLayout.IsNeighborMeaning` | app/_components/tileLayout.ts:126-130 | the same, on the board `build60` returns |
| `TileLayout.IsNeighborUnknownId` | app/_components/tileLayout.ts:127-128 | "60", "abc" and every index from 60 up are adjacent to nothing |
| `TileLayout.OutOfRangeIds` | app/_components/tileLayout.ts:127-128 | on a 60-tile board, ids that read as no index below 60 answer false |
| `TileLayout.IsNeighborIrreflexive` | app/_components/tileLayout.ts:126-130 | `isNeighbor(x, x)` is false for every string x |
| `TileLayout.IsNeighborSymmetric` | app/_components/tileLayout.ts:126-130 | for tile ids, `isNeighbor(a, b)` equals `isNeighbor(b, a)` |

## Left out

- `mulberry32` (tileLayout.ts:23-30) and the score formula (tileLayout.ts:72-75) are not modelled. They compute floating-point values. The model takes any score function of the cell and its draw index instead, with integer values standing for the floats.
- `axialToPixel`, `hexPath` and the `cx`, `cy` and `d` fields of a tile are not modelled. They are floating-point drawing data with no effect on topology. The per-tile generator `r2` is created but never used.
- `HEX_TILES_60` is the board for seed 1337. The model proves its facts for every score function and does not compute which 60 cells that seed picks.
- SortByScoreFacts: states descending order and permutation, but not stability. The model's insertion sort is stable, like `Array.prototype.sort`, but which of several equal-score cells is picked is not stated as a property.
- The in-place `all.sort` is a library call. It is modelled as the pure function `SortByScore` applied to the list.
- IsNeighbor: reads `Number(fromId)` only for non-empty strings of decimal digits. JavaScript also maps "", whitespace-padded digits, "-0", "5.0", "1e1" and "0x5" to tile indices. For those strings the model answers false where the source may answer true.
- The drawing code, the Firebase pages and the combat, move, teleport and economy code of the host and player pages are not part of this model.

## Notes

- Neighbour lists are ordered lists in DIRS order, and adjacency is asked through `isNeighbor`.
- `isNeighbor` is symmetric only on canonical ids. For example, "05" reads as tile 5 when passed as `fromId`. But a neighbour list never contains "05", so "05" passed as `toId` matches nothing.
