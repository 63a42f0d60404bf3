/**
 * The per-dimension spatial index from map cells to course nodes
 * (AmorLib/Utils/CourseNodeUtil.cs). After the air-graph post-process build
 * batch, every node of every cluster widens the dimension's cell bounds, a
 * grid of that size is allocated, each cell collects the course nodes whose
 * graph nodes fall in it (one per NodeID), and the grid is frozen. A lookup
 * returns the cell's own course nodes or, failing that, those of the nearest
 * filled cell found by scanning square rings of growing radius.
 *
 * Positions arrive here already divided into 4-unit cells.
 */
module CourseNodes {
  import opened Wrappers

  const Int32Max: int := 0x7fff_ffff
  const Int32Min: int := -0x8000_0000

  /** A cell, a cell bound, a map size or a map position: an int on the x axis and one on the z axis. */
  datatype Pair = Pair(x: int, z: int)

  /** A course node, known here by its NodeID alone. */
  datatype CourseNode = CourseNode(id: int)

  /** A node cluster: its course node and the cells of its graph nodes, in node order. */
  datatype Cluster = Cluster(courseNode: CourseNode, cells: seq<Pair>)

  /** One graph node of a cluster, paired with the cluster's course node. */
  datatype Entry = Entry(node: CourseNode, cell: Pair)

  function Min(a: int, b: int): int { if a <= b then a else b }

  function Max(a: int, b: int): int { if a >= b then a else b }

  function Abs(a: int): nat { if a < 0 then -a else a }

  /** Math.Clamp on ints; its callers always pass `lo <= hi`. */
  function Clamp(v: int, lo: int, hi: int): (r: int)
    requires lo <= hi
    ensures lo <= r <= hi
    ensures r == v <==> lo <= v <= hi
  {
    if v < lo then lo else if v > hi then hi else v
  }

  predicate InInt32(c: Pair) {
    Int32Min <= c.x <= Int32Max && Int32Min <= c.z <= Int32Max
  }

  /**
   * The map position of `cell` in a map whose lower cell bound is `min` and
   * whose size is `size`: its offset from the lower bound, clamped into the map.
   */
  function MapPos(min: Pair, size: Pair, cell: Pair): (p: Pair)
    requires size.x >= 1 && size.z >= 1
    ensures 0 <= p.x < size.x && 0 <= p.z < size.z
    ensures p == Pair(cell.x - min.x, cell.z - min.z) <==>
              0 <= cell.x - min.x < size.x && 0 <= cell.z - min.z < size.z
  {
    Pair(Clamp(cell.x - min.x, 0, size.x - 1), Clamp(cell.z - min.z, 0, size.z - 1))
  }

  /** The distance between two map positions: the radius of the square ring around `b` on which `a` lies. */
  function Dist(a: Pair, b: Pair): nat {
    Max(Abs(a.x - b.x), Abs(a.z - b.z))
  }

  predicate HasId(list: seq<CourseNode>, id: int) {
    exists i | 0 <= i < |list| :: list[i].id == id
  }

  predicate UniqueIds(list: seq<CourseNode>) {
    forall i, j | 0 <= i < j < |list| :: list[i].id != list[j].id
  }

  /** The entries of one cluster, in node order. */
  function EntriesOf(k: Cluster): (es: seq<Entry>)
    ensures |es| == |k.cells|
    ensures forall j | 0 <= j < |es| :: es[j].node == k.courseNode && es[j].cell == k.cells[j]
  {
    seq(|k.cells|, j requires 0 <= j < |k.cells| => Entry(k.courseNode, k.cells[j]))
  }

  /** The entries of a group of clusters, cluster by cluster: the order of the build loops. */
  function Entries(ks: seq<Cluster>): seq<Entry>
  {
    if ks == [] then [] else Entries(ks[..|ks| - 1]) + EntriesOf(ks[|ks| - 1])
  }

  lemma {:induction false} EntriesPrefix(ks: seq<Cluster>, k: nat)
    requires k <= |ks|
    ensures forall e | e in Entries(ks[..k]) :: e in Entries(ks)
    decreases |ks| - k
  {
    if k == |ks| {
      assert ks[..k] == ks;
    } else {
      EntriesPrefix(ks, k + 1);
      EntriesStep(ks, k);
    }
  }

  lemma EntriesStep(ks: seq<Cluster>, k: nat)
    requires k < |ks|
    ensures Entries(ks[..k + 1]) == Entries(ks[..k]) + EntriesOf(ks[k])
  {
    assert ks[..k + 1][..k] == ks[..k];
  }

  /**
   * The list that the build leaves in map position `p` once it has handled the
   * entries `es` in order: no list until an entry lands in `p`; then each
   * landing course node is appended unless one with its NodeID is listed.
   */
  function CellList(min: Pair, size: Pair, es: seq<Entry>, p: Pair): (r: Option<seq<CourseNode>>)
    requires size.x >= 1 && size.z >= 1
    ensures r.Some? ==> r.value != []
  {
    if es == [] then None
    else
      var prev := CellList(min, size, es[..|es| - 1], p);
      var e := es[|es| - 1];
      if MapPos(min, size, e.cell) != p then prev
      else
        var list := prev.GetOr([]);
        Some(if HasId(list, e.node.id) then list else list + [e.node])
  }

  /** No cell list ever holds two course nodes with the same NodeID. */
  lemma {:induction false} CellListUnique(min: Pair, size: Pair, es: seq<Entry>, p: Pair)
    requires size.x >= 1 && size.z >= 1
    ensures CellList(min, size, es, p).Some? ==> UniqueIds(CellList(min, size, es, p).value)
  {
    if es != [] {
      CellListUnique(min, size, es[..|es| - 1], p);
    }
  }

  /**
   * A position has a list exactly when some entry lands in it, and then the
   * list names every course node landing there and nothing else.
   */
  lemma {:induction false} CellListExact(min: Pair, size: Pair, es: seq<Entry>, p: Pair)
    requires size.x >= 1 && size.z >= 1
    ensures CellList(min, size, es, p).Some? <==>
              exists i | 0 <= i < |es| :: MapPos(min, size, es[i].cell) == p
    ensures CellList(min, size, es, p).Some? ==>
              forall i | 0 <= i < |es| && MapPos(min, size, es[i].cell) == p ::
                HasId(CellList(min, size, es, p).value, es[i].node.id)
    ensures CellList(min, size, es, p).Some? ==>
              forall n | n in CellList(min, size, es, p).value ::
                exists i | 0 <= i < |es| :: es[i].node == n && MapPos(min, size, es[i].cell) == p
  {
    if es != [] {
      var init := es[..|es| - 1];
      CellListExact(min, size, init, p);
      var last := |es| - 1;
      forall i | 0 <= i < |init| ensures es[i] == init[i] { }
      if CellList(min, size, es, p).Some? {
        var list := CellList(min, size, es, p).value;
        forall i | 0 <= i < |es| && MapPos(min, size, es[i].cell) == p
          ensures HasId(list, es[i].node.id)
        {
          if i == last {
            var prev := CellList(min, size, init, p).GetOr([]);
            if !HasId(prev, es[i].node.id) {
              assert list[|prev|].id == es[i].node.id;
            }
          } else {
            var j :| 0 <= j < |CellList(min, size, init, p).value| &&
                     CellList(min, size, init, p).value[j].id == es[i].node.id;
            assert list[j].id == es[i].node.id;
          }
        }
      }
    }
  }

  /**
   * The index of one dimension. Both grids are indexed by map position; a
   * cell's list is `None` where the source holds null.
   */
  class DimensionMap {
    var buildNodeMap: array2?<Option<seq<CourseNode>>>
    var nodeMap: array2?<Option<seq<CourseNode>>>
    var minCellBound: Pair
    var maxCellBound: Pair
    var mapSize: Pair

    /** Empty bounds: the lower bound starts at the largest Int32, the upper at the smallest. */
    constructor ()
      ensures buildNodeMap == null && nodeMap == null && mapSize == Pair(0, 0)
      ensures minCellBound == Pair(Int32Max, Int32Max) && maxCellBound == Pair(Int32Min, Int32Min)
      ensures forall c | InInt32(c) :: !Within(c)
    {
      buildNodeMap := null;
      nodeMap := null;
      mapSize := Pair(0, 0);
      minCellBound := Pair(Int32Max, Int32Max);
      maxCellBound := Pair(Int32Min, Int32Min);
    }

    /** `cell` lies inside the bounds on both axes. */
    predicate Within(cell: Pair)
      reads this`minCellBound, this`maxCellBound
    {
      minCellBound.x <= cell.x <= maxCellBound.x && minCellBound.z <= cell.z <= maxCellBound.z
    }

    predicate Sized()
      reads this`mapSize
    {
      mapSize.x >= 1 && mapSize.z >= 1
    }

    /** Both grids exist, are distinct and have the map's size: the state between CreateNodeMap and FinishBuild. */
    predicate Building()
      reads this
    {
      Sized() &&
      buildNodeMap != null && buildNodeMap.Length0 == mapSize.x && buildNodeMap.Length1 == mapSize.z &&
      nodeMap != null && nodeMap.Length0 == mapSize.x && nodeMap.Length1 == mapSize.z &&
      buildNodeMap != nodeMap
    }

    /** The lookup grid exists and has the map's size. */
    predicate Ready()
      reads this
    {
      Sized() && nodeMap != null && nodeMap.Length0 == mapSize.x && nodeMap.Length1 == mapSize.z
    }

    /** Widens the bounds just enough to take in `cell`. */
    method UpdateBounds(cell: Pair)
      modifies this`minCellBound, this`maxCellBound
      ensures minCellBound == Pair(Min(cell.x, old(minCellBound.x)), Min(cell.z, old(minCellBound.z)))
      ensures maxCellBound == Pair(Max(cell.x, old(maxCellBound.x)), Max(cell.z, old(maxCellBound.z)))
      ensures Within(cell)
      ensures forall c | old(Within(c)) :: Within(c)
    {
      minCellBound := Pair(Min(cell.x, minCellBound.x), Min(cell.z, minCellBound.z));
      maxCellBound := Pair(Max(cell.x, maxCellBound.x), Max(cell.z, maxCellBound.z));
    }

    /**
     * Sizes the map to hold every cell between the bounds and allocates both
     * grids with no lists. The bounds must have taken in at least one cell and
     * span fewer than Int32Max cells, so that the size is an Int32.
     */
    method CreateNodeMap()
      requires minCellBound.x <= maxCellBound.x && minCellBound.z <= maxCellBound.z
      requires maxCellBound.x - minCellBound.x < Int32Max && maxCellBound.z - minCellBound.z < Int32Max
      modifies this`mapSize, this`buildNodeMap, this`nodeMap
      ensures mapSize == Pair(maxCellBound.x - minCellBound.x + 1, maxCellBound.z - minCellBound.z + 1)
      ensures mapSize.x <= Int32Max && mapSize.z <= Int32Max
      ensures Building() && fresh(buildNodeMap) && fresh(nodeMap)
      ensures forall i, j | 0 <= i < mapSize.x && 0 <= j < mapSize.z ::
                buildNodeMap[i, j].None? && nodeMap[i, j].None?
      ensures forall c | Within(c) ::
                MapPos(minCellBound, mapSize, c) == Pair(c.x - minCellBound.x, c.z - minCellBound.z)
    {
      mapSize := Pair(maxCellBound.x - minCellBound.x + 1, maxCellBound.z - minCellBound.z + 1);
      buildNodeMap := new Option<seq<CourseNode>>[mapSize.x, mapSize.z]((i, j) => None);
      nodeMap := new Option<seq<CourseNode>>[mapSize.x, mapSize.z]((i, j) => None);
    }

    /**
     * The list of the map position of `cell`, allocated empty the first time
     * it is asked for and the same list every later time.
     */
    method GetBuildNodeList(cell: Pair) returns (list: seq<CourseNode>)
      requires Building()
      modifies buildNodeMap
      ensures var p := MapPos(minCellBound, mapSize, cell);
              list == old(buildNodeMap[p.x, p.z]).GetOr([]) && buildNodeMap[p.x, p.z] == Some(list)
      ensures forall i, j | 0 <= i < mapSize.x && 0 <= j < mapSize.z &&
                Pair(i, j) != MapPos(minCellBound, mapSize, cell) ::
                buildNodeMap[i, j] == old(buildNodeMap[i, j])
    {
      var p := MapPos(minCellBound, mapSize, cell);
      if buildNodeMap[p.x, p.z].None? {
        buildNodeMap[p.x, p.z] := Some([]);
      }
      list := buildNodeMap[p.x, p.z].value;
    }

    /** Copies every cell's list into the lookup grid, leaving absent lists absent, and drops the build grid. */
    method FinishBuild()
      requires Building()
      modifies this`buildNodeMap, nodeMap
      ensures Ready() && buildNodeMap == null && nodeMap == old(nodeMap)
      ensures forall i, j | 0 <= i < mapSize.x && 0 <= j < mapSize.z ::
                nodeMap[i, j] == old(buildNodeMap[i, j])
    {
      var from, to := buildNodeMap, nodeMap;
      for x := 0 to mapSize.x
        modifies to
        invariant forall i, j | 0 <= i < x && 0 <= j < mapSize.z :: to[i, j] == from[i, j]
      {
        for z := 0 to mapSize.z
          modifies to
          invariant forall i, j | 0 <= i < x && 0 <= j < mapSize.z :: to[i, j] == from[i, j]
          invariant forall j | 0 <= j < z :: to[x, j] == from[x, j]
        {
          to[x, z] := from[x, z];
        }
      }
      buildNodeMap := null;
    }

    /** Position `q` holds a list and no position holding one is closer to `p`. */
    predicate NearestFilled(q: Pair, p: Pair)
      requires Ready()
      reads this, nodeMap
    {
      0 <= q.x < mapSize.x && 0 <= q.z < mapSize.z && nodeMap[q.x, q.z].Some? &&
      forall i, j | 0 <= i < mapSize.x && 0 <= j < mapSize.z && nodeMap[i, j].Some? ::
        Dist(Pair(i, j), p) >= Dist(q, p)
    }

    /** No position closer to `p` than `radius` holds a list. */
    ghost predicate EmptyCloser(p: Pair, radius: int)
      requires Ready()
      reads this, nodeMap
    {
      forall i, j | 0 <= i < mapSize.x && 0 <= j < mapSize.z && Dist(Pair(i, j), p) < radius ::
        nodeMap[i, j].None?
    }

    /** Once nothing closer than `radius` is filled, a filled position within `radius` is a nearest one. */
    lemma NearestWhenCloserEmpty(p: Pair, radius: int, q: Pair)
      requires Ready() && EmptyCloser(p, radius)
      requires 0 <= q.x < mapSize.x && 0 <= q.z < mapSize.z && nodeMap[q.x, q.z].Some? && Dist(q, p) <= radius
      ensures NearestFilled(q, p)
    {
    }

    /**
     * The scan order of one ring, as a reference: the top then the bottom
     * position of each column from `i` to `right`; the first list met, or `None`.
     */
    function RowsFrom(left: int, right: int, top: int, bottom: int, i: int): Option<seq<CourseNode>>
      requires Ready() && 0 <= left <= i && right < mapSize.x && 0 <= top <= bottom < mapSize.z
      reads this, nodeMap
      decreases right - i + 1
    {
      if i > right then None
      else if nodeMap[i, top].Some? then nodeMap[i, top]
      else if nodeMap[i, bottom].Some? then nodeMap[i, bottom]
      else RowsFrom(left, right, top, bottom, i + 1)
    }

    /** The rest of the ring's scan order: the left then the right position of each row from `j` to `bottom - 1`. */
    function ColumnsFrom(left: int, right: int, top: int, bottom: int, j: int): Option<seq<CourseNode>>
      requires Ready() && 0 <= left <= right < mapSize.x && 0 <= top < j && bottom < mapSize.z
      reads this, nodeMap
      decreases bottom - j
    {
      if j >= bottom then None
      else if nodeMap[left, j].Some? then nodeMap[left, j]
      else if nodeMap[right, j].Some? then nodeMap[right, j]
      else ColumnsFrom(left, right, top, bottom, j + 1)
    }

    /** The list the scan of the ring of radius `radius` around `p`, clamped into the map, meets first. */
    function RingFirst(p: Pair, radius: int): Option<seq<CourseNode>>
      requires Ready() && 0 <= p.x < mapSize.x && 0 <= p.z < mapSize.z && radius >= 1
      reads this, nodeMap
    {
      var left, right := Max(p.x - radius, 0), Min(p.x + radius, mapSize.x - 1);
      var top, bottom := Max(p.z - radius, 0), Min(p.z + radius, mapSize.z - 1);
      var rows := RowsFrom(left, right, top, bottom, left);
      if rows.Some? then rows else ColumnsFrom(left, right, top, bottom, top + 1)
    }

    /** The list the ring scans meet first, trying radius `radius`, then `radius + 1`, ..., below `maxRadius`. */
    function RingsFrom(p: Pair, radius: int, maxRadius: int): Option<seq<CourseNode>>
      requires Ready() && 0 <= p.x < mapSize.x && 0 <= p.z < mapSize.z && radius >= 1
      reads this, nodeMap
      decreases maxRadius - radius
    {
      if radius >= maxRadius then None
      else if RingFirst(p, radius).Some? then RingFirst(p, radius)
      else RingsFrom(p, radius + 1, maxRadius)
    }

    /** What a lookup at map position `p` returns: its own list, or the first list the rings meet. */
    function Lookup(p: Pair): Option<seq<CourseNode>>
      requires Ready() && 0 <= p.x < mapSize.x && 0 <= p.z < mapSize.z
      reads this, nodeMap
    {
      if nodeMap[p.x, p.z].Some? then nodeMap[p.x, p.z] else RingsFrom(p, 1, Max(mapSize.x, mapSize.z))
    }

    /** The rows `top` and `bottom` between columns `left` and `right`, column by column: the first list met, or `None`. */
    method ScanRows(left: int, right: int, top: int, bottom: int) returns (r: Option<seq<CourseNode>>)
      requires Ready() && 0 <= left <= right < mapSize.x && 0 <= top <= bottom < mapSize.z
      ensures r == RowsFrom(left, right, top, bottom, left)
      ensures r.Some? ==>
                exists i | left <= i <= right ::
                  (forall i' | left <= i' < i :: nodeMap[i', top].None? && nodeMap[i', bottom].None?) &&
                  (if nodeMap[i, top].Some? then r == nodeMap[i, top] else r == nodeMap[i, bottom])
      ensures r.None? ==> forall i | left <= i <= right :: nodeMap[i, top].None? && nodeMap[i, bottom].None?
    {
      for xPos := left to right + 1
        invariant forall i | left <= i < xPos :: nodeMap[i, top].None? && nodeMap[i, bottom].None?
        invariant RowsFrom(left, right, top, bottom, left) == RowsFrom(left, right, top, bottom, xPos)
      {
        if nodeMap[xPos, top].Some? {
          return nodeMap[xPos, top];
        }
        if nodeMap[xPos, bottom].Some? {
          return nodeMap[xPos, bottom];
        }
      }
      r := None;
    }

    /** The columns `left` and `right` strictly between rows `top` and `bottom`, row by row: the first list met, or `None`. */
    method ScanColumns(left: int, right: int, top: int, bottom: int) returns (r: Option<seq<CourseNode>>)
      requires Ready() && 0 <= left <= right < mapSize.x && 0 <= top <= bottom < mapSize.z
      ensures top < bottom ==> r == ColumnsFrom(left, right, top, bottom, top + 1)
      ensures top == bottom ==> r.None?
      ensures r.Some? ==>
                exists j | top < j < bottom ::
                  (forall j' | top < j' < j :: nodeMap[left, j'].None? && nodeMap[right, j'].None?) &&
                  (if nodeMap[left, j].Some? then r == nodeMap[left, j] else r == nodeMap[right, j])
      ensures r.None? ==> forall j | top < j < bottom :: nodeMap[left, j].None? && nodeMap[right, j].None?
    {
      var zPos := top + 1;
      while zPos <= bottom - 1
        invariant top < zPos <= Max(bottom, top + 1)
        invariant forall j | top < j < zPos :: nodeMap[left, j].None? && nodeMap[right, j].None?
        invariant top < bottom ==> ColumnsFrom(left, right, top, bottom, top + 1) == ColumnsFrom(left, right, top, bottom, zPos)
      {
        if nodeMap[left, zPos].Some? {
          return nodeMap[left, zPos];
        }
        if nodeMap[right, zPos].Some? {
          return nodeMap[right, zPos];
        }
        zPos := zPos + 1;
      }
      r := None;
    }

    /**
     * One ring of the lookup: the square of radius `radius` around `p`,
     * clamped into the map, rows first and then columns.
     */
    method ScanRing(p: Pair, radius: int) returns (r: Option<seq<CourseNode>>)
      requires Ready() && 0 <= p.x < mapSize.x && 0 <= p.z < mapSize.z && radius >= 1
      ensures r == RingFirst(p, radius)
      ensures r.Some? ==>
                exists i, j | 0 <= i < mapSize.x && 0 <= j < mapSize.z ::
                  nodeMap[i, j] == r && Dist(Pair(i, j), p) <= radius
      ensures r.None? ==>
                forall i, j | 0 <= i < mapSize.x && 0 <= j < mapSize.z && Dist(Pair(i, j), p) == radius ::
                  nodeMap[i, j].None?
    {
      var left := Max(p.x - radius, 0);
      var right := Min(p.x + radius, mapSize.x - 1);
      var top := Max(p.z - radius, 0);
      var bottom := Min(p.z + radius, mapSize.z - 1);
      r := ScanRows(left, right, top, bottom);
      if r.None? {
        r := ScanColumns(left, right, top, bottom);
      }
      RingFirstSides(p, radius, left, right, top, bottom);
      RingFirstNear(p, radius);
    }

    /** The ring scan is the rows scan, then the columns scan when the rows meet no list. */
    lemma RingFirstSides(p: Pair, radius: int, left: int, right: int, top: int, bottom: int)
      requires Ready() && 0 <= p.x < mapSize.x && 0 <= p.z < mapSize.z && radius >= 1
      requires left == Max(p.x - radius, 0) && right == Min(p.x + radius, mapSize.x - 1)
      requires top == Max(p.z - radius, 0) && bottom == Min(p.z + radius, mapSize.z - 1)
      ensures RowsFrom(left, right, top, bottom, left).Some? ==>
                RingFirst(p, radius) == RowsFrom(left, right, top, bottom, left)
      ensures RowsFrom(left, right, top, bottom, left).None? && top < bottom ==>
                RingFirst(p, radius) == ColumnsFrom(left, right, top, bottom, top + 1)
      ensures RowsFrom(left, right, top, bottom, left).None? && top == bottom ==> RingFirst(p, radius).None?
    {
      if top == bottom {
        assert ColumnsFrom(left, right, top, bottom, top + 1).None?;
      }
    }

    /** The rows scan from column `i` on meets a list of the top or bottom row, or finds both rows empty. */
    lemma {:induction false} RowsFromSpan(left: int, right: int, top: int, bottom: int, i: int)
      requires Ready() && 0 <= left <= i && right < mapSize.x && 0 <= top <= bottom < mapSize.z
      ensures RowsFrom(left, right, top, bottom, i).Some? ==>
                exists k | i <= k <= right ::
                  RowsFrom(left, right, top, bottom, i) in {nodeMap[k, top], nodeMap[k, bottom]}
      ensures RowsFrom(left, right, top, bottom, i).None? ==>
                forall k | i <= k <= right :: nodeMap[k, top].None? && nodeMap[k, bottom].None?
      decreases right - i + 1
    {
      if i <= right && nodeMap[i, top].None? && nodeMap[i, bottom].None? {
        RowsFromSpan(left, right, top, bottom, i + 1);
      }
    }

    /** The columns scan from row `j` on meets a list of the left or right column, or finds both columns empty. */
    lemma {:induction false} ColumnsFromSpan(left: int, right: int, top: int, bottom: int, j: int)
      requires Ready() && 0 <= left <= right < mapSize.x && 0 <= top < j && bottom < mapSize.z
      ensures ColumnsFrom(left, right, top, bottom, j).Some? ==>
                exists k | j <= k < bottom ::
                  ColumnsFrom(left, right, top, bottom, j) in {nodeMap[left, k], nodeMap[right, k]}
      ensures ColumnsFrom(left, right, top, bottom, j).None? ==>
                forall k | j <= k < bottom :: nodeMap[left, k].None? && nodeMap[right, k].None?
      decreases bottom - j
    {
      if j < bottom && nodeMap[left, j].None? && nodeMap[right, j].None? {
        ColumnsFromSpan(left, right, top, bottom, j + 1);
      }
    }

    /**
     * The list a ring scan meets lies within `radius` of `p`; a ring scan
     * that meets none leaves no list at distance exactly `radius`.
     */
    lemma RingFirstNear(p: Pair, radius: int)
      requires Ready() && 0 <= p.x < mapSize.x && 0 <= p.z < mapSize.z && radius >= 1
      ensures RingFirst(p, radius).Some? ==>
                exists i, j | 0 <= i < mapSize.x && 0 <= j < mapSize.z ::
                  nodeMap[i, j] == RingFirst(p, radius) && Dist(Pair(i, j), p) <= radius
      ensures RingFirst(p, radius).None? ==>
                forall i, j | 0 <= i < mapSize.x && 0 <= j < mapSize.z && Dist(Pair(i, j), p) == radius ::
                  nodeMap[i, j].None?
    {
      var left := Max(p.x - radius, 0);
      var right := Min(p.x + radius, mapSize.x - 1);
      var top := Max(p.z - radius, 0);
      var bottom := Min(p.z + radius, mapSize.z - 1);
      var rows := RowsFrom(left, right, top, bottom, left);
      var columns := ColumnsFrom(left, right, top, bottom, top + 1);
      RingFirstSides(p, radius, left, right, top, bottom);
      RowsFromSpan(left, right, top, bottom, left);
      ColumnsFromSpan(left, right, top, bottom, top + 1);
      if rows.Some? {
        var k :| left <= k <= right && rows in {nodeMap[k, top], nodeMap[k, bottom]};
        SquareDist(p, radius, Pair(k, top));
        SquareDist(p, radius, Pair(k, bottom));
      } else if columns.Some? {
        var k :| top + 1 <= k < bottom && columns in {nodeMap[left, k], nodeMap[right, k]};
        SquareDist(p, radius, Pair(left, k));
        SquareDist(p, radius, Pair(right, k));
      } else {
        RingEmpty(p, radius, left, right, top, bottom);
      }
    }

    /** When the four sides of the clamped square are empty, so is every position at distance `radius`. */
    lemma RingEmpty(p: Pair, radius: int, left: int, right: int, top: int, bottom: int)
      requires Ready() && 0 <= p.x < mapSize.x && 0 <= p.z < mapSize.z && radius >= 1
      requires left == Max(p.x - radius, 0) && right == Min(p.x + radius, mapSize.x - 1)
      requires top == Max(p.z - radius, 0) && bottom == Min(p.z + radius, mapSize.z - 1)
      requires forall i | left <= i <= right :: nodeMap[i, top].None? && nodeMap[i, bottom].None?
      requires forall j | top < j < bottom :: nodeMap[left, j].None? && nodeMap[right, j].None?
      ensures forall i, j | 0 <= i < mapSize.x && 0 <= j < mapSize.z && Dist(Pair(i, j), p) == radius ::
                nodeMap[i, j].None?
    {
      forall i, j | 0 <= i < mapSize.x && 0 <= j < mapSize.z && Dist(Pair(i, j), p) == radius
        ensures nodeMap[i, j].None?
      {
        RingSide(p, mapSize, radius, Pair(i, j));
      }
    }

    /**
     * A ring search from `radius` that finds a list found it on a ring
     * whose scan meets it, every earlier ring's scan having met none.
     */
    lemma {:induction false} RingsFromFound(p: Pair, radius: int, maxRadius: int)
      requires Ready() && 0 <= p.x < mapSize.x && 0 <= p.z < mapSize.z && radius >= 1
      requires RingsFrom(p, radius, maxRadius).Some?
      ensures exists r | radius <= r < maxRadius ::
                RingFirst(p, r) == RingsFrom(p, radius, maxRadius) &&
                forall r' | radius <= r' < r :: RingFirst(p, r').None?
      decreases maxRadius - radius
    {
      if RingFirst(p, radius).None? {
        RingsFromFound(p, radius + 1, maxRadius);
        var r :| radius + 1 <= r < maxRadius &&
                 RingFirst(p, r) == RingsFrom(p, radius + 1, maxRadius) &&
                 forall r' | radius + 1 <= r' < r :: RingFirst(p, r').None?;
        assert forall r' | radius <= r' < r :: RingFirst(p, r').None?;
      }
    }

    /** A ring search from `radius` that finds nothing met nothing on any ring it scanned. */
    lemma {:induction false} RingsFromNone(p: Pair, radius: int, maxRadius: int, r: int)
      requires Ready() && 0 <= p.x < mapSize.x && 0 <= p.z < mapSize.z && radius >= 1
      requires RingsFrom(p, radius, maxRadius).None? && radius <= r < maxRadius
      ensures RingFirst(p, r).None?
      decreases r - radius
    {
      if radius < r {
        RingsFromNone(p, radius + 1, maxRadius, r);
      }
    }

    /** When no ring scan below `radius` meets a list, nothing closer than `radius` is filled. */
    lemma EmptyBelow(p: Pair, radius: int)
      requires Ready() && 0 <= p.x < mapSize.x && 0 <= p.z < mapSize.z && nodeMap[p.x, p.z].None?
      requires forall r | 1 <= r < radius :: RingFirst(p, r).None?
      ensures EmptyCloser(p, radius)
    {
      forall i, j | 0 <= i < mapSize.x && 0 <= j < mapSize.z && Dist(Pair(i, j), p) < radius
        ensures nodeMap[i, j].None?
      {
        var d := Dist(Pair(i, j), p);
        if d == 0 {
          assert Pair(i, j) == p;
        } else {
          RingFirstNear(p, d);
        }
      }
    }

    /**
     * A lookup finds a nearest filled position whenever it finds a list,
     * and finds none exactly when the whole map is empty.
     */
    lemma LookupNearest(p: Pair)
      requires Ready() && 0 <= p.x < mapSize.x && 0 <= p.z < mapSize.z
      ensures nodeMap[p.x, p.z].Some? ==> Lookup(p) == nodeMap[p.x, p.z]
      ensures Lookup(p).None? <==> forall i, j | 0 <= i < mapSize.x && 0 <= j < mapSize.z :: nodeMap[i, j].None?
      ensures Lookup(p).Some? ==>
                exists i, j | 0 <= i < mapSize.x && 0 <= j < mapSize.z ::
                  nodeMap[i, j] == Lookup(p) && NearestFilled(Pair(i, j), p)
    {
      var maxRadius := Max(mapSize.x, mapSize.z);
      if nodeMap[p.x, p.z].Some? {
        assert Dist(p, p) == 0;
        assert NearestFilled(p, p);
      } else if Lookup(p).Some? {
        RingsFromFound(p, 1, maxRadius);
        var r :| 1 <= r < maxRadius && RingFirst(p, r) == Lookup(p) &&
                 forall r' | 1 <= r' < r :: RingFirst(p, r').None?;
        EmptyBelow(p, r);
        RingFirstNear(p, r);
        var i, j :| 0 <= i < mapSize.x && 0 <= j < mapSize.z &&
                    nodeMap[i, j] == RingFirst(p, r) && Dist(Pair(i, j), p) <= r;
        NearestWhenCloserEmpty(p, r, Pair(i, j));
      } else {
        forall i, j | 0 <= i < mapSize.x && 0 <= j < mapSize.z
          ensures nodeMap[i, j].None?
        {
          var d := Dist(Pair(i, j), p);
          if d == 0 {
            assert Pair(i, j) == p;
          } else {
            RingsFromNone(p, 1, maxRadius, d);
            RingFirstNear(p, d);
          }
        }
      }
    }

    /**
     * The course nodes of the map position of `cell` when it has a list;
     * otherwise those of the first filled position met on the square rings
     * of radius 1, 2, ... around it, clamped into the map; `None` when no
     * position of the map has a list.
     */
    method GetNodes(cell: Pair) returns (r: Option<seq<CourseNode>>)
      requires Ready()
      ensures r == Lookup(MapPos(minCellBound, mapSize, cell))
      ensures var p := MapPos(minCellBound, mapSize, cell);
              nodeMap[p.x, p.z].Some? ==> r == nodeMap[p.x, p.z]
      ensures r.None? <==> forall i, j | 0 <= i < mapSize.x && 0 <= j < mapSize.z :: nodeMap[i, j].None?
      ensures r.Some? ==>
                exists i, j | 0 <= i < mapSize.x && 0 <= j < mapSize.z ::
                  nodeMap[i, j] == r && NearestFilled(Pair(i, j), MapPos(minCellBound, mapSize, cell))
    {
      var p := MapPos(minCellBound, mapSize, cell);
      var maxRadius := Max(mapSize.x, mapSize.z);
      assert Lookup(p) == if nodeMap[p.x, p.z].Some? then nodeMap[p.x, p.z] else RingsFrom(p, 1, maxRadius);
      r := nodeMap[p.x, p.z];
      if r.None? {
        var radius := 1;
        while radius < maxRadius
          invariant 1 <= radius <= maxRadius
          invariant r.None? && Lookup(p) == RingsFrom(p, radius, maxRadius)
        {
          r := ScanRing(p, radius);
          assert Lookup(p) == if r.Some? then r else RingsFrom(p, radius + 1, maxRadius);
          if r.Some? {
            break;
          }
          radius := radius + 1;
        }
      }
      assert p == MapPos(minCellBound, mapSize, cell) && r == Lookup(p);
      LookupNearest(p);
      if r.Some? {
        var i, j :| 0 <= i < mapSize.x && 0 <= j < mapSize.z && nodeMap[i, j] == r && NearestFilled(Pair(i, j), p);
      }
    }
  }

  /** A position inside the square of radius `radius` around `p` is at most that far from `p`. */
  lemma SquareDist(p: Pair, radius: int, q: Pair)
    requires p.x - radius <= q.x <= p.x + radius && p.z - radius <= q.z <= p.z + radius
    ensures Dist(q, p) <= radius
  {
  }

  /**
   * A map position at distance `radius` from `p` lies on the border of the
   * square of that radius around `p` once the square is clamped into the map.
   */
  lemma RingSide(p: Pair, size: Pair, radius: int, q: Pair)
    requires 0 <= p.x < size.x && 0 <= p.z < size.z && 0 <= q.x < size.x && 0 <= q.z < size.z
    requires Dist(q, p) == radius
    ensures Max(p.x - radius, 0) <= q.x <= Min(p.x + radius, size.x - 1)
    ensures Max(p.z - radius, 0) <= q.z <= Min(p.z + radius, size.z - 1)
    ensures q.x == Max(p.x - radius, 0) || q.x == Min(p.x + radius, size.x - 1) ||
            q.z == Max(p.z - radius, 0) || q.z == Min(p.z + radius, size.z - 1)
  {
  }

  /**
   * The bounds of `m` after the cells of `done` (at least one of them) each
   * bound the cells and are each reached by one of the cells: `w` names them.
   */
  ghost predicate Tight(m: DimensionMap, done: seq<Entry>, w: seq<Entry>)
    reads m`minCellBound, m`maxCellBound
  {
    (forall e | e in done :: m.Within(e.cell)) &&
    (done == [] ==> m.minCellBound == Pair(Int32Max, Int32Max) && m.maxCellBound == Pair(Int32Min, Int32Min)) &&
    (done != [] ==>
       |w| == 4 && w[0] in done && w[1] in done && w[2] in done && w[3] in done &&
       w[0].cell.x == m.minCellBound.x && w[1].cell.x == m.maxCellBound.x &&
       w[2].cell.z == m.minCellBound.z && w[3].cell.z == m.maxCellBound.z)
  }

  /** Widens the bounds of `m` by the cell of one more node. */
  method BoundEntry(m: DimensionMap, e: Entry, ghost done: seq<Entry>, ghost w: seq<Entry>) returns (ghost w': seq<Entry>)
    requires Tight(m, done, w) && InInt32(e.cell)
    modifies m`minCellBound, m`maxCellBound
    ensures Tight(m, done + [e], w')
  {
    var first := done == [];
    w' := [if first || e.cell.x <= m.minCellBound.x then e else w[0],
           if first || e.cell.x >= m.maxCellBound.x then e else w[1],
           if first || e.cell.z <= m.minCellBound.z then e else w[2],
           if first || e.cell.z >= m.maxCellBound.z then e else w[3]];
    m.UpdateBounds(e.cell);
  }

  /** Widens the bounds of `m` by the cell of every node of `cluster`. */
  method BoundCluster(m: DimensionMap, cluster: Cluster, ghost before: seq<Entry>, ghost w: seq<Entry>)
    returns (ghost w': seq<Entry>)
    requires Tight(m, before, w) && forall c | c in cluster.cells :: InInt32(c)
    modifies m`minCellBound, m`maxCellBound
    ensures Tight(m, before + EntriesOf(cluster), w')
  {
    ghost var done := before;
    w' := w;
    assert EntriesOf(cluster)[..0] == [];
    for j := 0 to |cluster.cells|
      invariant done == before + EntriesOf(cluster)[..j]
      invariant Tight(m, done, w')
    {
      var e := Entry(cluster.courseNode, cluster.cells[j]);
      assert EntriesOf(cluster)[..j + 1] == EntriesOf(cluster)[..j] + [e];
      w' := BoundEntry(m, e, done, w');
      done := done + [e];
    }
    assert EntriesOf(cluster)[..|cluster.cells|] == EntriesOf(cluster);
  }

  /** Widens the bounds of `m` by the cell of every node of every cluster of `group`. */
  method BoundGroup(m: DimensionMap, group: seq<Cluster>) returns (ghost w: seq<Entry>)
    requires m.minCellBound == Pair(Int32Max, Int32Max) && m.maxCellBound == Pair(Int32Min, Int32Min)
    requires forall e | e in Entries(group) :: InInt32(e.cell)
    modifies m`minCellBound, m`maxCellBound
    ensures Tight(m, Entries(group), w)
  {
    w := [];
    for k := 0 to |group|
      invariant Tight(m, Entries(group[..k]), w)
    {
      EntriesStep(group, k);
      EntriesPrefix(group, k + 1);
      forall c | c in group[k].cells ensures InInt32(c) {
        var j :| 0 <= j < |group[k].cells| && group[k].cells[j] == c;
        assert EntriesOf(group[k])[j] in Entries(group[..k + 1]);
      }
      w := BoundCluster(m, group[k], Entries(group[..k]), w);
    }
    assert group[..|group|] == group;
  }

  /** The list of position `q` once one more entry `e` is handled. */
  lemma CellListStep(min: Pair, size: Pair, es: seq<Entry>, e: Entry, q: Pair)
    requires size.x >= 1 && size.z >= 1
    ensures CellList(min, size, es + [e], q) ==
              if MapPos(min, size, e.cell) != q then CellList(min, size, es, q)
              else
                var list := CellList(min, size, es, q).GetOr([]);
                Some(if HasId(list, e.node.id) then list else list + [e.node])
  {
    assert (es + [e])[..|es|] == es;
  }

  /** Puts the course node of `e` in the list of the map position of its cell, unless its NodeID is already there. */
  method FillEntry(m: DimensionMap, e: Entry, ghost es: seq<Entry>)
    requires m.Building()
    requires forall i, j | 0 <= i < m.mapSize.x && 0 <= j < m.mapSize.z ::
               m.buildNodeMap[i, j] == CellList(m.minCellBound, m.mapSize, es, Pair(i, j))
    modifies m.buildNodeMap
    ensures forall i, j | 0 <= i < m.mapSize.x && 0 <= j < m.mapSize.z ::
              m.buildNodeMap[i, j] == CellList(m.minCellBound, m.mapSize, es + [e], Pair(i, j))
  {
    var list := m.GetBuildNodeList(e.cell);
    if !HasId(list, e.node.id) {
      var p := MapPos(m.minCellBound, m.mapSize, e.cell);
      m.buildNodeMap[p.x, p.z] := Some(list + [e.node]);
    }
    forall i, j | 0 <= i < m.mapSize.x && 0 <= j < m.mapSize.z
      ensures m.buildNodeMap[i, j] == CellList(m.minCellBound, m.mapSize, es + [e], Pair(i, j))
    {
      CellListStep(m.minCellBound, m.mapSize, es, e, Pair(i, j));
    }
  }

  /**
   * Puts the course node of `cluster` in the list of the map position of each
   * of its nodes' cells, unless a course node with its NodeID is already there.
   */
  method FillCluster(m: DimensionMap, cluster: Cluster, ghost before: seq<Entry>)
    requires m.Building()
    requires forall i, j | 0 <= i < m.mapSize.x && 0 <= j < m.mapSize.z ::
               m.buildNodeMap[i, j] == CellList(m.minCellBound, m.mapSize, before, Pair(i, j))
    modifies m.buildNodeMap
    ensures forall i, j | 0 <= i < m.mapSize.x && 0 <= j < m.mapSize.z ::
              m.buildNodeMap[i, j] == CellList(m.minCellBound, m.mapSize, before + EntriesOf(cluster), Pair(i, j))
  {
    ghost var done := before;
    assert EntriesOf(cluster)[..0] == [];
    for j := 0 to |cluster.cells|
      invariant done == before + EntriesOf(cluster)[..j]
      invariant forall i, j' | 0 <= i < m.mapSize.x && 0 <= j' < m.mapSize.z ::
                  m.buildNodeMap[i, j'] == CellList(m.minCellBound, m.mapSize, done, Pair(i, j'))
    {
      var e := Entry(cluster.courseNode, cluster.cells[j]);
      assert EntriesOf(cluster)[..j + 1] == EntriesOf(cluster)[..j] + [e];
      FillEntry(m, e, done);
      done := done + [e];
    }
    assert EntriesOf(cluster)[..|cluster.cells|] == EntriesOf(cluster);
  }

  /** Fills the lists of `m` from every cluster of `group`, in order. */
  method FillGroup(m: DimensionMap, group: seq<Cluster>)
    requires m.Building()
    requires forall i, j | 0 <= i < m.mapSize.x && 0 <= j < m.mapSize.z :: m.buildNodeMap[i, j].None?
    modifies m.buildNodeMap
    ensures forall i, j | 0 <= i < m.mapSize.x && 0 <= j < m.mapSize.z ::
              m.buildNodeMap[i, j] == CellList(m.minCellBound, m.mapSize, Entries(group), Pair(i, j))
  {
    ghost var done: seq<Entry> := [];
    for k := 0 to |group|
      invariant done == Entries(group[..k])
      invariant forall i, j | 0 <= i < m.mapSize.x && 0 <= j < m.mapSize.z ::
                  m.buildNodeMap[i, j] == CellList(m.minCellBound, m.mapSize, done, Pair(i, j))
    {
      EntriesStep(group, k);
      FillCluster(m, group[k], done);
      done := done + EntriesOf(group[k]);
    }
    assert group[..|group|] == group;
  }

  /**
   * The build of one dimension's map from the clusters of that dimension:
   * bounds over every node's cell, a map of that size, each position's list of
   * course nodes, and the frozen lookup grid. Cells are Int32 values, there is
   * at least one node, and the cells span fewer than Int32Max cells per axis.
   */
  method BuildMap(group: seq<Cluster>) returns (m: DimensionMap)
    requires Entries(group) != []
    requires forall e | e in Entries(group) :: InInt32(e.cell)
    requires forall a, b | a in Entries(group) && b in Entries(group) ::
               b.cell.x - a.cell.x < Int32Max && b.cell.z - a.cell.z < Int32Max
    ensures fresh(m) && m.Ready() && m.buildNodeMap == null
    ensures forall e | e in Entries(group) :: m.Within(e.cell)
    ensures forall i, j | 0 <= i < m.mapSize.x && 0 <= j < m.mapSize.z ::
              m.nodeMap[i, j] == CellList(m.minCellBound, m.mapSize, Entries(group), Pair(i, j))
  {
    m := new DimensionMap();
    ghost var w := BoundGroup(m, group);
    assert w[1].cell.x - w[0].cell.x < Int32Max && w[3].cell.z - w[2].cell.z < Int32Max;
    ghost var lo, hi := m.minCellBound, m.maxCellBound;
    m.CreateNodeMap();
    FillGroup(m, group);
    m.FinishBuild();
    assert m.minCellBound == lo && m.maxCellBound == hi;
  }
}
