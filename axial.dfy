/**
 * Axial hex coordinates: the six neighbour directions (DIRS), the string key
 * a cell is indexed by, and the radius-5 hex disk the board is cut from.
 */
module Axial {
  import opened Decimal

  /** An axial cell (q, r); its third cube coordinate is -q - r. */
  datatype Coord = Coord(q: int, r: int)

  /** The radius of the disk `build60` starts from. */
  const Radius: int := 5

  function Add(a: Coord, b: Coord): Coord {
    Coord(a.q + b.q, a.r + b.r)
  }

  function Sub(a: Coord, b: Coord): Coord {
    Coord(a.q - b.q, a.r - b.r)
  }

  function Neg(a: Coord): Coord {
    Coord(-a.q, -a.r)
  }

  function Abs(x: int): nat {
    if x < 0 then -x else x
  }

  /** The six axial neighbour offsets, in the order the neighbour loop visits them. */
  const Dirs: seq<Coord> := [Coord(1, 0), Coord(1, -1), Coord(0, -1), Coord(-1, 0), Coord(-1, 1), Coord(0, 1)]

  /** b lies one step from a along some direction of DIRS. */
  predicate Adjacent(a: Coord, b: Coord) {
    Sub(b, a) in Dirs
  }

  /**
   * There are six offsets, none of them zero, no two equal, and the set is
   * closed under negation.
   */
  lemma DirsShape()
    ensures |Dirs| == 6
    ensures Coord(0, 0) !in Dirs
    ensures forall i, j :: 0 <= i < j < |Dirs| ==> Dirs[i] != Dirs[j]
    ensures forall d :: d in Dirs <==> Neg(d) in Dirs
  {
  }

  /** No cell is adjacent to itself. */
  lemma AdjacentIrreflexive(a: Coord)
    ensures !Adjacent(a, a)
  {
    DirsShape();
  }

  /** Adjacency is symmetric, because DIRS is closed under negation. */
  lemma AdjacentSymmetric(a: Coord, b: Coord)
    ensures Adjacent(a, b) <==> Adjacent(b, a)
  {
    DirsShape();
    assert Sub(a, b) == Neg(Sub(b, a));
  }

  /** `key(q, r)`: the string `${q},${r}` that indexes the `byCoord` map. */
  function Key(c: Coord): string {
    IntToString(c.q) + "," + IntToString(c.r)
  }

  /** A key splits at its first ',' into the text of q and the text of r. */
  lemma KeySplit(c: Coord)
    ensures CommaAt(Key(c)) == |IntToString(c.q)| < |Key(c)|
    ensures Key(c)[..CommaAt(Key(c))] == IntToString(c.q)
    ensures Key(c)[CommaAt(Key(c)) + 1..] == IntToString(c.r)
  {
    CommaPosition(IntToString(c.q), IntToString(c.r));
  }

  /** The position of the first ',' in s, or |s| when there is none. */
  function CommaAt(s: string): nat
    ensures CommaAt(s) <= |s|
  {
    if s == [] || s[0] == ',' then 0 else 1 + CommaAt(s[1..])
  }

  lemma {:induction false} CommaPosition(u: string, v: string)
    requires forall k :: 0 <= k < |u| ==> u[k] != ','
    ensures CommaAt(u + "," + v) == |u|
  {
    if u != [] {
      assert (u + "," + v)[1..] == u[1..] + "," + v;
      CommaPosition(u[1..], v);
    }
  }

  /** Two cells share a key only when they are the same cell. */
  lemma {:induction false} KeyInjective(a: Coord, b: Coord)
    ensures Key(a) == Key(b) <==> a == b
  {
    if Key(a) == Key(b) {
      KeySplit(a);
      KeySplit(b);
      IntToStringInjective(a.q, b.q);
      IntToStringInjective(a.r, b.r);
    }
  }

  /** The membership test of the enumeration loop: |q|, |r| and |-q-r| all at most 5. */
  predicate InDisk(c: Coord) {
    Abs(c.q) <= Radius && Abs(c.r) <= Radius && Abs(-c.q - c.r) <= Radius
  }

  /**
   * The disk cells (q, r') with -Radius <= r' < r, in the order the inner loop
   * visits them.
   */
  function RowPrefix(q: int, r: int): seq<Coord>
    decreases r + Radius
  {
    if r <= -Radius then []
    else RowPrefix(q, r - 1) + (if InDisk(Coord(q, r - 1)) then [Coord(q, r - 1)] else [])
  }

  /** The disk cells of the rows -Radius <= q' < q, in the order the outer loop visits them. */
  function DiskPrefix(q: int): seq<Coord>
    decreases q + Radius
  {
    if q <= -Radius then [] else DiskPrefix(q - 1) + RowPrefix(q - 1, Radius + 1)
  }

  /** The whole enumeration of the radius-5 disk. */
  function Disk(): seq<Coord> {
    DiskPrefix(Radius + 1)
  }

  ghost predicate Distinct<T>(s: seq<T>) {
    forall i, j :: 0 <= i < j < |s| ==> s[i] != s[j]
  }

  lemma DistinctConcat<T>(a: seq<T>, b: seq<T>)
    requires Distinct(a) && Distinct(b)
    requires forall x :: x in a ==> x !in b
    ensures Distinct(a + b)
  {
    forall i, j | 0 <= i < j < |a + b| ensures (a + b)[i] != (a + b)[j] {
      if i < |a| && j >= |a| {
        assert (a + b)[i] in a && (a + b)[j] == b[j - |a|];
      }
    }
  }

  lemma {:induction false} RowPrefixMembers(q: int, r: int)
    ensures forall c :: c in RowPrefix(q, r) <==> c.q == q && c.r < r && InDisk(c)
    decreases r + Radius
  {
    if r > -Radius {
      RowPrefixMembers(q, r - 1);
    }
  }

  lemma {:induction false} RowPrefixDistinct(q: int, r: int)
    ensures Distinct(RowPrefix(q, r))
    decreases r + Radius
  {
    if r > -Radius {
      RowPrefixDistinct(q, r - 1);
      RowPrefixMembers(q, r - 1);
      DistinctConcat(RowPrefix(q, r - 1), if InDisk(Coord(q, r - 1)) then [Coord(q, r - 1)] else []);
    }
  }

  lemma {:induction false} DiskPrefixMembers(q: int)
    ensures forall c :: c in DiskPrefix(q) <==> c.q < q && InDisk(c)
    decreases q + Radius
  {
    if q > -Radius {
      DiskPrefixMembers(q - 1);
      RowPrefixMembers(q - 1, Radius + 1);
    }
  }

  lemma {:induction false} DiskPrefixDistinct(q: int)
    ensures Distinct(DiskPrefix(q))
    decreases q + Radius
  {
    if q > -Radius {
      DiskPrefixDistinct(q - 1);
      DiskPrefixMembers(q - 1);
      RowPrefixDistinct(q - 1, Radius + 1);
      RowPrefixMembers(q - 1, Radius + 1);
      DistinctConcat(DiskPrefix(q - 1), RowPrefix(q - 1, Radius + 1));
    }
  }

  /** A row holds the r' in [max(-5, -5-q), min(5, 5-q)] below r. */
  lemma {:induction false} RowPrefixSize(q: int, r: int)
    requires -Radius <= q <= Radius
    ensures var lo, hi := if q < 0 then -Radius - q else -Radius, if q < 0 then Radius else Radius - q;
            var top := if r - 1 < hi then r - 1 else hi;
            |RowPrefix(q, r)| == if top < lo then 0 else top - lo + 1
    decreases r + Radius
  {
    if r > -Radius {
      RowPrefixSize(q, r - 1);
    }
  }

  /** Row q of the disk has 11 - |q| cells. */
  function RowCount(q: int): int {
    2 * Radius + 1 - Abs(q)
  }

  lemma {:induction false} DiskPrefixSize(q: int)
    requires -Radius <= q <= Radius + 1
    ensures |DiskPrefix(q)| == RowsBelow(q)
    decreases q + Radius
  {
    if q > -Radius {
      DiskPrefixSize(q - 1);
      RowPrefixSize(q - 1, Radius + 1);
    }
  }

  /**
   * The enumeration keeps exactly the axial cells with |q|, |r| and |-q-r| at
   * most 5, each once: 91 cells.
   */
  lemma DiskEnumeration()
    ensures |Disk()| == 91
    ensures forall c :: c in Disk() <==> InDisk(c)
    ensures Distinct(Disk())
  {
    DiskPrefixMembers(Radius + 1);
    DiskPrefixDistinct(Radius + 1);
    DiskSize();
  }

  lemma DiskSize()
    ensures |Disk()| == 91
  {
    DiskPrefixSize(Radius + 1);
    assert RowsBelow(Radius + 1) == 91;
  }

  /** The number of disk cells in the rows below q. */
  function RowsBelow(q: int): int
    decreases q + Radius
  {
    if q <= -Radius then 0 else RowsBelow(q - 1) + RowCount(q - 1)
  }
}
