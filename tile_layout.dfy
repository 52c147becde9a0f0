/**
 * The 60-tile hex board and its adjacency. `build60` enumerates the radius-5
 * axial disk, keeps the 60 best-scoring cells, numbers them "0".."59" and
 * gives each tile the ids of the picked cells one DIRS step away;
 * `isNeighbor` answers adjacency queries by tile id for move validation.
 *
 * A cell's score is the blend of its distance from the centre and the k-th
 * pseudo-random draw; the model takes it as an arbitrary function `score` of
 * the cell and k, so every fact below holds whatever the scores are.
 */
module TileLayout {
  import opened Wrappers
  import opened Decimal
  import opened Axial

  /** How many tiles the board keeps. */
  const TileCount: nat := 60

  /** An enumerated disk cell with its score. */
  datatype Cell = Cell(pos: Coord, score: int)

  /** A board tile: id, axial coordinates and neighbour ids (pixel centre and path left out). */
  datatype HexTile = HexTile(id: string, q: int, r: int, neighbors: seq<string>)

  type ScoreFn = (Coord, nat) -> int

  /** The cells ps scored in order: the k-th gets the k-th draw. */
  function Scored(ps: seq<Coord>, score: ScoreFn): (cells: seq<Cell>)
    ensures |cells| == |ps|
    ensures forall k :: 0 <= k < |ps| ==> cells[k] == Cell(ps[k], score(ps[k], k))
  {
    seq(|ps|, k requires 0 <= k < |ps| => Cell(ps[k], score(ps[k], k)))
  }

  /** The list `all` the enumeration loops produce. */
  function DiskCells(score: ScoreFn): seq<Cell> {
    Scored(Disk(), score)
  }

  lemma ScoredSnoc(ps: seq<Coord>, p: Coord, score: ScoreFn)
    ensures Scored(ps + [p], score) == Scored(ps, score) + [Cell(p, score(p, |ps|))]
  {
  }

  /** One step of the inner loop pushes (q, r), scored by the next draw, exactly when it is in the disk. */
  lemma EnumerateStep(q: int, r: int, score: ScoreFn, all: seq<Cell>)
    requires -Radius <= r
    requires all == Scored(DiskPrefix(q) + RowPrefix(q, r), score)
    ensures InDisk(Coord(q, r)) ==>
      all + [Cell(Coord(q, r), score(Coord(q, r), |all|))] == Scored(DiskPrefix(q) + RowPrefix(q, r + 1), score)
    ensures !InDisk(Coord(q, r)) ==> all == Scored(DiskPrefix(q) + RowPrefix(q, r + 1), score)
  {
    var before := DiskPrefix(q) + RowPrefix(q, r);
    if InDisk(Coord(q, r)) {
      assert DiskPrefix(q) + RowPrefix(q, r + 1) == before + [Coord(q, r)];
      ScoredSnoc(before, Coord(q, r), score);
    }
  }

  ghost predicate CoordsDistinct(cells: seq<Cell>) {
    forall i, j :: 0 <= i < j < |cells| ==> cells[i].pos != cells[j].pos
  }

  /**
   * The nested loops of `build60`: every (q, r) in [-5, 5]^2 that passes the
   * disk test is pushed, with its score, in loop order.
   */
  method EnumerateDisk(score: ScoreFn) returns (all: seq<Cell>)
    ensures all == DiskCells(score)
  {
    all := [];
    var q := -Radius;
    while q <= Radius
      invariant -Radius <= q <= Radius + 1
      invariant all == Scored(DiskPrefix(q), score)
    {
      var r := -Radius;
      while r <= Radius
        invariant -Radius <= r <= Radius + 1
        invariant all == Scored(DiskPrefix(q) + RowPrefix(q, r), score)
      {
        var s := -q - r;
        EnumerateStep(q, r, score, all);
        if Abs(q) <= Radius && Abs(r) <= Radius && Abs(s) <= Radius {
          all := all + [Cell(Coord(q, r), score(Coord(q, r), |all|))];
        }
        r := r + 1;
      }
      assert DiskPrefix(q + 1) == DiskPrefix(q) + RowPrefix(q, r);
      q := q + 1;
    }
  }

  /** The enumeration lists the disk cells once each, 91 of them, scored in order. */
  lemma DiskCellsFacts(score: ScoreFn)
    ensures |DiskCells(score)| == 91
    ensures forall k :: 0 <= k < 91 ==> DiskCells(score)[k].pos == Disk()[k]
    ensures forall c :: c in DiskCells(score) ==> InDisk(c.pos)
    ensures CoordsDistinct(DiskCells(score))
  {
    DiskEnumeration();
    var cells := DiskCells(score);
    forall c | c in cells ensures InDisk(c.pos) {
      var k :| 0 <= k < |cells| && cells[k] == c;
      assert c.pos == Disk()[k];
    }
  }

  // ---------------------------------------------------------------------------
  // `all.sort((a, b) => b.score - a.score)`: a stable sort, highest score first.

  ghost predicate SortedByScore(cells: seq<Cell>) {
    forall i, j :: 0 <= i < j < |cells| ==> cells[i].score >= cells[j].score
  }

  /** Places x before the first cell that does not outscore it. */
  function Insert(x: Cell, t: seq<Cell>): (r: seq<Cell>)
    ensures multiset(r) == multiset(t) + multiset{x}
  {
    if t == [] || t[0].score <= x.score then [x] + t
    else
      assert t == [t[0]] + t[1..];
      [t[0]] + Insert(x, t[1..])
  }

  /** Every cell of s has coordinates other than p. */
  ghost predicate AllAway(s: seq<Cell>, p: Coord) {
    forall k :: 0 <= k < |s| ==> s[k].pos != p
  }

  lemma ConsSorted(a: Cell, s: seq<Cell>)
    requires SortedByScore(s)
    requires forall k :: 0 <= k < |s| ==> a.score >= s[k].score
    ensures SortedByScore([a] + s)
  {
  }

  lemma ConsDistinct(a: Cell, s: seq<Cell>)
    requires CoordsDistinct(s) && AllAway(s, a.pos)
    ensures CoordsDistinct([a] + s)
  {
  }

  /** A cell is in Insert(x, t) exactly when it is x or a cell of t. */
  lemma InsertMembers(x: Cell, t: seq<Cell>, c: Cell)
    ensures c in Insert(x, t) <==> c == x || c in t
  {
    assert c in Insert(x, t) <==> c in multiset(Insert(x, t));
  }

  /** Inserting into a sorted list keeps it sorted. */
  lemma {:induction false} InsertSorted(x: Cell, t: seq<Cell>)
    requires SortedByScore(t)
    ensures SortedByScore(Insert(x, t))
  {
    if t != [] && t[0].score > x.score {
      InsertSorted(x, t[1..]);
      var rest := Insert(x, t[1..]);
      forall k | 0 <= k < |rest| ensures t[0].score >= rest[k].score {
        InsertMembers(x, t[1..], rest[k]);
      }
      ConsSorted(t[0], rest);
    }
  }

  /** Inserting a cell at new coordinates keeps coordinates distinct. */
  lemma {:induction false} InsertDistinct(x: Cell, t: seq<Cell>)
    requires CoordsDistinct(t) && AllAway(t, x.pos)
    ensures CoordsDistinct(Insert(x, t))
  {
    if t != [] && t[0].score > x.score {
      InsertDistinct(x, t[1..]);
      var rest := Insert(x, t[1..]);
      forall k | 0 <= k < |rest| ensures rest[k].pos != t[0].pos {
        InsertMembers(x, t[1..], rest[k]);
      }
      ConsDistinct(t[0], rest);
    }
  }

  /** The sort the board uses: stable insertion sort, highest score first. */
  function SortByScore(cells: seq<Cell>): (r: seq<Cell>)
    ensures multiset(r) == multiset(cells) && |r| == |cells|
  {
    if cells == [] then []
    else
      assert cells == [cells[0]] + cells[1..];
      Insert(cells[0], SortByScore(cells[1..]))
  }

  /** The sort orders by descending score, and keeps coordinates distinct. */
  lemma {:induction false} SortByScoreFacts(cells: seq<Cell>)
    ensures SortedByScore(SortByScore(cells))
    ensures CoordsDistinct(cells) ==> CoordsDistinct(SortByScore(cells))
  {
    if cells != [] {
      var rest := SortByScore(cells[1..]);
      SortByScoreFacts(cells[1..]);
      InsertSorted(cells[0], rest);
      if CoordsDistinct(cells) {
        forall k | 0 <= k < |rest| ensures rest[k].pos != cells[0].pos {
          assert rest[k] in multiset(cells[1..]);
        }
        InsertDistinct(cells[0], rest);
      }
    }
  }

  /** `all` after the sort. */
  function SortedCells(score: ScoreFn): (sorted: seq<Cell>)
    ensures |sorted| == 91
  {
    DiskCellsFacts(score);
    SortByScore(DiskCells(score))
  }

  /** `all.slice(0, 60)`: the picked cells. */
  function Picked(score: ScoreFn): (picked: seq<Cell>)
    ensures |picked| == TileCount
  {
    SortedCells(score)[..TileCount]
  }

  /** The 31 cells left off the board. */
  function Unpicked(score: ScoreFn): (rest: seq<Cell>)
    ensures |rest| == 91 - TileCount
  {
    SortedCells(score)[TileCount..]
  }

  /** The 60 picked cells lie inside the disk at pairwise distinct coordinates. */
  lemma PickedDistinct(score: ScoreFn)
    ensures forall i :: 0 <= i < TileCount ==> InDisk(Picked(score)[i].pos)
    ensures CoordsDistinct(Picked(score))
  {
    DiskCellsFacts(score);
    var all := DiskCells(score);
    var sorted := SortedCells(score);
    SortByScoreFacts(all);
    forall i | 0 <= i < TileCount ensures InDisk(Picked(score)[i].pos) {
      assert sorted[i] in multiset(all);
    }
  }

  /**
   * Selection is top-k: the picked and unpicked cells together are exactly
   * the disk cells, and no unpicked cell outscores a picked one.
   */
  lemma PickedTopK(score: ScoreFn)
    ensures multiset(Picked(score)) + multiset(Unpicked(score)) == multiset(DiskCells(score))
    ensures forall i, j :: 0 <= i < TileCount && 0 <= j < |Unpicked(score)| ==>
              Unpicked(score)[j].score <= Picked(score)[i].score
  {
    var sorted := SortedCells(score);
    SortByScoreFacts(DiskCells(score));
    assert sorted == Picked(score) + Unpicked(score);
    forall i, j | 0 <= i < TileCount && 0 <= j < |Unpicked(score)|
      ensures Unpicked(score)[j].score <= Picked(score)[i].score
    {
      assert Unpicked(score)[j] == sorted[TileCount + j];
    }
  }

  // ---------------------------------------------------------------------------
  // `byCoord`: coordinates key -> index in `picked`.

  /** m maps the key of each picked cell to that cell's index, and has no other keys. */
  ghost predicate IndexesPicked(m: map<string, nat>, picked: seq<Cell>) {
    && (forall k :: 0 <= k < |picked| ==> Key(picked[k].pos) in m && m[Key(picked[k].pos)] == k)
    && (forall key :: key in m ==> m[key] < |picked| && Key(picked[m[key]].pos) == key)
  }

  /**
   * `picked.forEach((t, i) => byCoord.set(key(t.q, t.r), i))`. A later cell
   * overwrites an earlier one with the same key, so each key maps to the last
   * index with those coordinates; when the coordinates are distinct, to the
   * only one.
   */
  method IndexByCoord(picked: seq<Cell>) returns (byCoord: map<string, nat>)
    ensures forall key :: key in byCoord ==> byCoord[key] < |picked| && Key(picked[byCoord[key]].pos) == key
    ensures forall k :: 0 <= k < |picked| ==> Key(picked[k].pos) in byCoord && byCoord[Key(picked[k].pos)] >= k
    ensures CoordsDistinct(picked) ==> IndexesPicked(byCoord, picked)
  {
    byCoord := map[];
    for i := 0 to |picked|
      invariant forall key :: key in byCoord ==> byCoord[key] < i && Key(picked[byCoord[key]].pos) == key
      invariant forall k :: 0 <= k < i ==> Key(picked[k].pos) in byCoord && byCoord[Key(picked[k].pos)] >= k
    {
      byCoord := byCoord[Key(picked[i].pos) := i];
    }
    if CoordsDistinct(picked) {
      forall k | 0 <= k < |picked| ensures byCoord[Key(picked[k].pos)] == k {
        var m := byCoord[Key(picked[k].pos)];
        KeyInjective(picked[m].pos, picked[k].pos);
      }
    }
  }

  // ---------------------------------------------------------------------------
  // Neighbour lists.

  /** The first index of a picked cell at c, if any: a search independent of `byCoord`. */
  function IndexOf(picked: seq<Cell>, c: Coord): (found: Option<nat>)
    ensures found.Some? ==> found.value < |picked| && picked[found.value].pos == c
    ensures found.None? ==> forall k :: 0 <= k < |picked| ==> picked[k].pos != c
  {
    if picked == [] then None
    else if picked[0].pos == c then Some(0)
    else match IndexOf(picked[1..], c)
      case None => None
      case Some(k) => Some(k + 1)
  }

  /**
   * The indices of the picked cells at p + d for the offsets d of dirs, in the
   * order of dirs: the reference definition of a neighbour list.
   */
  function NeighborIndices(picked: seq<Cell>, p: Coord, dirs: seq<Coord>): seq<nat>
    decreases |dirs|
  {
    if dirs == [] then []
    else
      var init := NeighborIndices(picked, p, dirs[..|dirs| - 1]);
      match IndexOf(picked, Add(p, dirs[|dirs| - 1]))
      case None => init
      case Some(j) => init + [j]
  }

  /** `String(j)` of each index. */
  function Ids(js: seq<nat>): (ids: seq<string>)
    ensures |ids| == |js|
    ensures forall k :: 0 <= k < |js| ==> ids[k] == NatToString(js[k])
  {
    seq(|js|, k requires 0 <= k < |js| => NatToString(js[k]))
  }

  lemma IdsSnoc(js: seq<nat>, j: nat)
    ensures Ids(js + [j]) == Ids(js) + [NatToString(j)]
  {
  }

  lemma NeighborIndicesStep(picked: seq<Cell>, p: Coord, dirs: seq<Coord>, k: nat)
    requires k < |dirs|
    ensures NeighborIndices(picked, p, dirs[..k + 1]) ==
      match IndexOf(picked, Add(p, dirs[k]))
      case None => NeighborIndices(picked, p, dirs[..k])
      case Some(j) => NeighborIndices(picked, p, dirs[..k]) + [j]
  {
    assert dirs[..k + 1][..k] == dirs[..k];
  }

  /** A map lookup in an index of picked agrees with the search. */
  lemma LookupIsSearch(byCoord: map<string, nat>, picked: seq<Cell>, c: Coord)
    requires IndexesPicked(byCoord, picked)
    ensures Key(c) in byCoord <==> IndexOf(picked, c).Some?
    ensures Key(c) in byCoord ==> IndexOf(picked, c) == Some(byCoord[Key(c)])
  {
    var found := IndexOf(picked, c);
    if found.Some? {
      assert Key(picked[found.value].pos) in byCoord;
    }
    if Key(c) in byCoord {
      var j := byCoord[Key(c)];
      KeyInjective(picked[j].pos, c);
      assert found.Some?;
      assert byCoord[Key(picked[found.value].pos)] == found.value;
    }
  }

  /**
   * The DIRS loop of `build60` for the tile at (q, r): each key one step away
   * that `byCoord` holds contributes `String(j)`, in DIRS order.
   */
  method NeighborIds(byCoord: map<string, nat>, picked: seq<Cell>, q: int, r: int) returns (neighbors: seq<string>)
    requires IndexesPicked(byCoord, picked)
    ensures neighbors == Ids(NeighborIndices(picked, Coord(q, r), Dirs))
  {
    neighbors := [];
    var p := Coord(q, r);
    for k := 0 to |Dirs|
      invariant neighbors == Ids(NeighborIndices(picked, p, Dirs[..k]))
    {
      var d := Dirs[k];
      var c := Coord(q + d.q, r + d.r);
      NeighborIndicesStep(picked, p, Dirs, k);
      LookupIsSearch(byCoord, picked, c);
      var cellKey := Key(c);
      if cellKey in byCoord {
        var j := byCoord[cellKey];
        IdsSnoc(NeighborIndices(picked, p, Dirs[..k]), j);
        neighbors := neighbors + [NatToString(j)];
      }
    }
    assert Dirs[..|Dirs|] == Dirs;
  }

  /**
   * j is in the neighbour list of p exactly when picked cell j sits at p plus
   * an offset of dirs; the list is no longer than dirs, and has no repeats
   * when dirs has none.
   */
  lemma {:induction false} NeighborIndicesFacts(picked: seq<Cell>, p: Coord, dirs: seq<Coord>)
    requires CoordsDistinct(picked)
    ensures forall j: nat :: j in NeighborIndices(picked, p, dirs) <==> j < |picked| && Sub(picked[j].pos, p) in dirs
    ensures |NeighborIndices(picked, p, dirs)| <= |dirs|
    ensures Distinct(dirs) ==> Distinct(NeighborIndices(picked, p, dirs))
    decreases |dirs|
  {
    if dirs != [] {
      var init := dirs[..|dirs| - 1];
      var d := dirs[|dirs| - 1];
      assert dirs == init + [d];
      NeighborIndicesFacts(picked, p, init);
      var found := IndexOf(picked, Add(p, d));
      forall j: nat | j < |picked| && Sub(picked[j].pos, p) == d
        ensures found == Some(j)
      {
        assert picked[j].pos == Add(p, d);
      }
      if found.Some? && Distinct(dirs) {
        var j := found.value;
        assert Sub(picked[j].pos, p) == d;
        forall i | 0 <= i < |init| ensures init[i] != d {
          assert init[i] == dirs[i];
        }
        assert j !in NeighborIndices(picked, p, init);
        DistinctConcat(NeighborIndices(picked, p, init), [j]);
      }
    }
  }

  // ---------------------------------------------------------------------------
  // The board.

  /** Tile i is picked cell i, with id `String(i)` and the ids of its neighbours. */
  function Tile(picked: seq<Cell>, i: nat): HexTile
    requires i < |picked|
  {
    HexTile(NatToString(i), picked[i].pos.q, picked[i].pos.r, Ids(NeighborIndices(picked, picked[i].pos, Dirs)))
  }

  /** The first n tiles. */
  function TilesUpTo(picked: seq<Cell>, n: nat): (tiles: seq<HexTile>)
    requires n <= |picked|
    ensures |tiles| == n
    ensures forall i :: 0 <= i < n ==> tiles[i] == Tile(picked, i)
  {
    if n == 0 then [] else TilesUpTo(picked, n - 1) + [Tile(picked, n - 1)]
  }

  /** One tile per picked cell, in order. */
  function Tiles(picked: seq<Cell>): (tiles: seq<HexTile>)
    ensures |tiles| == |picked|
    ensures forall i :: 0 <= i < |picked| ==> tiles[i] == Tile(picked, i)
  {
    TilesUpTo(picked, |picked|)
  }

  /** The tiles `build60` returns. */
  function Layout(score: ScoreFn): (tiles: seq<HexTile>)
    ensures |tiles| == TileCount
  {
    Tiles(Picked(score))
  }

  /**
   * `centers.map(...)` of `build60`: tile i gets id `String(i)`, the picked
   * cell's coordinates, and the ids `byCoord` finds one DIRS step away.
   */
  method BuildTiles(byCoord: map<string, nat>, picked: seq<Cell>) returns (tiles: seq<HexTile>)
    requires IndexesPicked(byCoord, picked)
    ensures tiles == Tiles(picked)
  {
    tiles := [];
    for i := 0 to |picked|
      invariant tiles == TilesUpTo(picked, i)
    {
      var pos := picked[i].pos;
      var neighbors := NeighborIds(byCoord, picked, pos.q, pos.r);
      assert Coord(pos.q, pos.r) == pos;
      tiles := tiles + [HexTile(NatToString(i), pos.q, pos.r, neighbors)];
    }
  }

  /** `build60`: enumerate, sort, keep the top 60, index them, and list their neighbours. */
  method Build60(score: ScoreFn) returns (tiles: seq<HexTile>)
    ensures tiles == Layout(score)
  {
    var all := EnumerateDisk(score);
    all := SortByScore(all);
    DiskCellsFacts(score);
    var picked := all[..TileCount];
    assert picked == Picked(score);
    PickedDistinct(score);
    var byCoord := IndexByCoord(picked);
    tiles := BuildTiles(byCoord, picked);
  }

  /** The coordinates of tile i. */
  function TilePos(tiles: seq<HexTile>, i: nat): Coord
    requires i < |tiles|
  {
    Coord(tiles[i].q, tiles[i].r)
  }

  /**
   * The board has 60 tiles with ids "0".."59" in array order, at pairwise
   * distinct disk coordinates.
   */
  lemma LayoutTiles(score: ScoreFn)
    ensures forall i :: 0 <= i < TileCount ==> Layout(score)[i].id == NatToString(i)
    ensures forall i :: 0 <= i < TileCount ==> InDisk(TilePos(Layout(score), i))
    ensures forall i, j :: 0 <= i < j < TileCount ==>
              Layout(score)[i].id != Layout(score)[j].id && TilePos(Layout(score), i) != TilePos(Layout(score), j)
  {
    PickedDistinct(score);
    var picked := Picked(score);
    var tiles := Layout(score);
    forall i | 0 <= i < TileCount ensures TilePos(tiles, i) == picked[i].pos {
    }
    forall i, j | 0 <= i < j < TileCount ensures tiles[i].id != tiles[j].id {
      NatToStringInjective(i, j);
    }
  }

  /**
   * `String(j)` is in tile i's neighbour list exactly when picked cell j sits
   * one DIRS step from tile i, and every entry is such an id.
   */
  lemma TileNeighbors(picked: seq<Cell>, i: nat)
    requires CoordsDistinct(picked) && i < |picked|
    ensures forall j: nat :: NatToString(j) in Tiles(picked)[i].neighbors <==>
              j < |picked| && Adjacent(picked[i].pos, picked[j].pos)
    ensures forall x :: x in Tiles(picked)[i].neighbors ==>
              ParseIndex(x).Some? && ParseIndex(x).value < |picked| && NatToString(ParseIndex(x).value) == x
  {
    var p := picked[i].pos;
    var js := NeighborIndices(picked, p, Dirs);
    var nbrs := Tiles(picked)[i].neighbors;
    assert nbrs == Ids(js);
    NeighborIndicesFacts(picked, p, Dirs);
    forall j: nat ensures NatToString(j) in nbrs <==> j in js {
      if NatToString(j) in nbrs {
        var k :| 0 <= k < |nbrs| && nbrs[k] == NatToString(j);
        NatToStringInjective(j, js[k]);
      }
      if j in js {
        var k :| 0 <= k < |js| && js[k] == j;
        assert nbrs[k] == NatToString(j);
      }
    }
    forall x | x in nbrs
      ensures ParseIndex(x).Some? && ParseIndex(x).value < |picked| && NatToString(ParseIndex(x).value) == x
    {
      var k :| 0 <= k < |nbrs| && nbrs[k] == x;
      ParseNatToString(js[k]);
      assert js[k] in js;
    }
  }

  /** A neighbour list has at most six entries, no repeats, and never the tile's own id. */
  lemma TileNeighborsShape(picked: seq<Cell>, i: nat)
    requires CoordsDistinct(picked) && i < |picked|
    ensures |Tiles(picked)[i].neighbors| <= 6
    ensures Distinct(Tiles(picked)[i].neighbors)
    ensures Tiles(picked)[i].id !in Tiles(picked)[i].neighbors
  {
    DirsShape();
    var p := picked[i].pos;
    var js := NeighborIndices(picked, p, Dirs);
    var nbrs := Tiles(picked)[i].neighbors;
    assert nbrs == Ids(js);
    NeighborIndicesFacts(picked, p, Dirs);
    forall a, b | 0 <= a < b < |nbrs| ensures nbrs[a] != nbrs[b] {
      NatToStringInjective(js[a], js[b]);
    }
    AdjacentIrreflexive(p);
    TileNeighbors(picked, i);
  }

  /** Adjacency on the board is symmetric: j neighbours i exactly when i neighbours j. */
  lemma TileNeighborsSymmetric(picked: seq<Cell>, i: nat, j: nat)
    requires CoordsDistinct(picked) && i < |picked| && j < |picked|
    ensures NatToString(j) in Tiles(picked)[i].neighbors <==> NatToString(i) in Tiles(picked)[j].neighbors
  {
    TileNeighbors(picked, i);
    TileNeighbors(picked, j);
    AdjacentSymmetric(picked[i].pos, picked[j].pos);
  }

  // ---------------------------------------------------------------------------
  // `isNeighbor`, over the board `tiles` (HEX_TILES_60 is `build60(1337)`).

  /**
   * `isNeighbor(fromId, toId)`: look the tile up by `Number(fromId)`; an id
   * that indexes no tile answers false, otherwise the answer is whether
   * `String(toId)` (toId itself, as it is already a string) is in its list.
   */
  function IsNeighbor(tiles: seq<HexTile>, fromId: string, toId: string): (adjacent: bool)
    ensures adjacent ==> ParseIndex(fromId).Some? && ParseIndex(fromId).value < |tiles|
  {
    match ParseIndex(fromId)
    case None => false
    case Some(i) => i < |tiles| && toId in tiles[i].neighbors
  }

  /**
   * On a board built from picked cells at distinct coordinates,
   * isNeighbor(fromId, toId) holds exactly when fromId reads as a tile index
   * i, toId is the canonical id of a tile j, and tile j sits one DIRS step
   * from tile i.
   */
  lemma IsNeighborOnTiles(picked: seq<Cell>, fromId: string, toId: string)
    requires CoordsDistinct(picked)
    ensures IsNeighbor(Tiles(picked), fromId, toId) <==>
      && ParseIndex(fromId).Some? && ParseIndex(fromId).value < |picked|
      && ParseIndex(toId).Some? && ParseIndex(toId).value < |picked|
      && toId == NatToString(ParseIndex(toId).value)
      && Adjacent(picked[ParseIndex(fromId).value].pos, picked[ParseIndex(toId).value].pos)
  {
    if ParseIndex(fromId).Some? && ParseIndex(fromId).value < |picked| {
      TileNeighbors(picked, ParseIndex(fromId).value);
    }
  }

  /**
   * On the built board, isNeighbor(fromId, toId) holds exactly when fromId
   * reads as a tile index i, toId is the canonical id of a tile j, and tile j
   * sits one DIRS step from tile i.
   */
  lemma IsNeighborMeaning(score: ScoreFn, fromId: string, toId: string)
    ensures IsNeighbor(Layout(score), fromId, toId) <==>
      && ParseIndex(fromId).Some? && ParseIndex(fromId).value < TileCount
      && ParseIndex(toId).Some? && ParseIndex(toId).value < TileCount
      && toId == NatToString(ParseIndex(toId).value)
      && Adjacent(TilePos(Layout(score), ParseIndex(fromId).value), TilePos(Layout(score), ParseIndex(toId).value))
  {
    PickedDistinct(score);
    IsNeighborOnTiles(Picked(score), fromId, toId);
  }

  /** Ids that index no tile, such as "60" or "abc", are adjacent to nothing. */
  lemma IsNeighborUnknownId(score: ScoreFn, toId: string)
    ensures !IsNeighbor(Layout(score), "60", toId)
    ensures !IsNeighbor(Layout(score), "abc", toId)
    ensures forall n: nat :: n >= TileCount ==> !IsNeighbor(Layout(score), NatToString(n), toId)
  {
    OutOfRangeIds(Layout(score), toId);
  }

  lemma OutOfRangeIds(tiles: seq<HexTile>, toId: string)
    requires |tiles| == TileCount
    ensures !IsNeighbor(tiles, "60", toId)
    ensures !IsNeighbor(tiles, "abc", toId)
    ensures forall n: nat :: n >= TileCount ==> !IsNeighbor(tiles, NatToString(n), toId)
  {
    assert ParseIndex("60") == Some(60) by {
      assert AllDigits("60");
      assert "60"[..1] == "6" && "6"[..0] == [];
      assert DigitsValue("6") == 6;
    }
    assert ParseIndex("abc") == None by {
      assert !IsDigit("abc"[0]);
    }
    forall n: nat | n >= TileCount ensures !IsNeighbor(tiles, NatToString(n), toId) {
      ParseNatToString(n);
    }
  }

  /** No string is its own neighbour. */
  lemma IsNeighborIrreflexive(score: ScoreFn, id: string)
    ensures !IsNeighbor(Layout(score), id, id)
  {
    PickedDistinct(score);
    var picked := Picked(score);
    IsNeighborOnTiles(picked, id, id);
    if ParseIndex(id).Some? && ParseIndex(id).value < TileCount {
      AdjacentIrreflexive(picked[ParseIndex(id).value].pos);
    }
  }

  /** isNeighbor is symmetric on the tiles' own ids. */
  lemma IsNeighborSymmetric(score: ScoreFn, i: nat, j: nat)
    ensures IsNeighbor(Layout(score), NatToString(i), NatToString(j)) <==>
            IsNeighbor(Layout(score), NatToString(j), NatToString(i))
  {
    ParseNatToString(i);
    ParseNatToString(j);
    PickedDistinct(score);
    var picked := Picked(score);
    IsNeighborOnTiles(picked, NatToString(i), NatToString(j));
    IsNeighborOnTiles(picked, NatToString(j), NatToString(i));
    if i < TileCount && j < TileCount {
      AdjacentSymmetric(picked[i].pos, picked[j].pos);
    }
  }
}
