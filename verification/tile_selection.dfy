/** What both map providers share when choosing tiles for a viewport: the
    zoom chosen by halving the tile count from zoom 20, and the rectangle of
    tiles visited column by column. */
module TileSelection {
  import opened JavaInt

  /** The zoom the search starts from. */
  const MaxZoom: int := 20

  /** One tile position in the visited rectangle. */
  datatype Cell = Cell(x: int, y: int)

  /** The longitude/latitude rectangle of the view. */
  datatype Bounds = Bounds(minX: real, minY: real, maxX: real, maxY: real)

  /** The inclusive tile rectangle `firstX..lastX` by `firstY..lastY`. */
  datatype TileRange = TileRange(firstX: int, lastX: int, firstY: int, lastY: int)

  /** `n` after `k` rounds of `n /= 2` on a Java `int`. */
  function HalveTimes(n: int, k: nat): int
    decreases k
  {
    if k == 0 then n else HalveTimes(Quot(n, 2), k - 1)
  }

  /** `while (numTilesAcross > correctNumTilesAcross && zoom > 1) { zoom--; numTilesAcross /= 2; }`.
      The result is the first zoom, going down, at which the halved count fits
      on the screen, or 1 if none does. */
  function ZoomLoop(numTilesAcross: int, correctNumTilesAcross: int, zoom: int): (z: int)
    requires zoom >= 1
    ensures 1 <= z <= zoom
    ensures z == 1 || HalveTimes(numTilesAcross, zoom - z) <= correctNumTilesAcross
    ensures forall k :: 0 <= k < zoom - z ==> HalveTimes(numTilesAcross, k) > correctNumTilesAcross
    decreases zoom
  {
    if numTilesAcross > correctNumTilesAcross && zoom > 1 then
      ZoomLoop(Quot(numTilesAcross, 2), correctNumTilesAcross, zoom - 1)
    else zoom
  }

  /** The zoom both providers draw at, given the number of zoom-20 tiles
      across the viewport and the number that fit across the screen. */
  function ChooseZoom(numTilesAcross: int, correctNumTilesAcross: int): (z: int)
    ensures 1 <= z <= MaxZoom
    ensures z == 1 || HalveTimes(numTilesAcross, MaxZoom - z) <= correctNumTilesAcross
    ensures forall k :: 0 <= k < MaxZoom - z ==> HalveTimes(numTilesAcross, k) > correctNumTilesAcross
  {
    ZoomLoop(numTilesAcross, correctNumTilesAcross, MaxZoom)
  }

  /** A viewport that already fits at zoom 20 is drawn at zoom 20. */
  lemma FittingViewKeepsMaxZoom(numTilesAcross: int, correctNumTilesAcross: int)
    requires numTilesAcross <= correctNumTilesAcross
    ensures ChooseZoom(numTilesAcross, correctNumTilesAcross) == MaxZoom
  {
  }

  /** True when every position of `s` holds a different value. */
  predicate Distinct<T(==)>(s: seq<T>) {
    forall i, j :: 0 <= i < j < |s| ==> s[i] != s[j]
  }

  lemma DistinctSnoc<T>(s: seq<T>, x: T)
    requires Distinct(s) && x !in s
    ensures Distinct(s + [x])
  {
  }

  lemma {:induction false} DistinctByCount<T>(s: seq<T>)
    ensures Distinct(s) <==> forall x :: multiset(s)[x] <= 1
    decreases |s|
  {
    if |s| > 0 {
      DistinctByCount(s[1..]);
      assert s == [s[0]] + s[1..];
      assert multiset(s) == multiset{s[0]} + multiset(s[1..]);
      if Distinct(s) {
        assert Distinct(s[1..]) by {
          forall i, j | 0 <= i < j < |s[1..]|
            ensures s[1..][i] != s[1..][j]
          {
            assert s[i + 1] != s[j + 1];
          }
        }
        assert s[0] !in s[1..];
      } else {
        var i, j :| 0 <= i < j < |s| && s[i] == s[j];
        if i == 0 {
          assert s[j] in s[1..];
          assert multiset(s)[s[0]] >= 2;
        } else {
          assert s[1..][i - 1] == s[1..][j - 1];
          assert !Distinct(s[1..]);
          var x :| multiset(s[1..])[x] > 1;
          assert multiset(s)[x] > 1;
        }
      }
    }
  }

  /** Sorting keeps a list free of repeats. */
  lemma DistinctPermutation<T>(a: seq<T>, b: seq<T>)
    requires multiset(a) == multiset(b) && Distinct(a)
    ensures Distinct(b)
  {
    DistinctByCount(a);
    DistinctByCount(b);
  }

  /** Strictly increasing in (x, y) order: x outer, y inner. */
  predicate ColumnMajor(s: seq<Cell>) {
    forall i, j :: 0 <= i < j < |s| ==> s[i].x < s[j].x || (s[i].x == s[j].x && s[i].y < s[j].y)
  }

  predicate InRange(r: TileRange, c: Cell) {
    r.firstX <= c.x <= r.lastX && r.firstY <= c.y <= r.lastY
  }

  /** The inner loop `for (tileY = firstY; tileY <= lastY; tileY++)` at column `x`. */
  function Column(x: int, firstY: int, lastY: int): (s: seq<Cell>)
    ensures forall c :: c in s <==> c.x == x && firstY <= c.y <= lastY
    ensures ColumnMajor(s)
    decreases lastY - firstY
  {
    if firstY > lastY then [] else [Cell(x, firstY)] + Column(x, firstY + 1, lastY)
  }

  /** The cells of the nested loops over a tile rectangle, in visiting order. */
  function Cells(r: TileRange): (s: seq<Cell>)
    ensures forall c :: c in s <==> InRange(r, c)
    ensures ColumnMajor(s) && Distinct(s)
    decreases r.lastX - r.firstX
  {
    if r.firstX > r.lastX then []
    else
      var col := Column(r.firstX, r.firstY, r.lastY);
      var rest := Cells(r.(firstX := r.firstX + 1));
      assert forall i, j :: 0 <= i < |col| && 0 <= j < |rest| ==> col[i].x < rest[j].x by {
        forall i, j | 0 <= i < |col| && 0 <= j < |rest|
          ensures col[i].x < rest[j].x
        {
          assert col[i] in col;
          assert rest[j] in rest;
        }
      }
      col + rest
  }

  /** One call of `getTileImage` made while choosing tiles: the tile asked
      for and whether only the caches may be used. */
  datatype Probe<K> = Probe(key: K, onlyGetFromCache: bool)

  /** The tiles asked for with fetching allowed, in order. */
  function Requested<K>(probes: seq<Probe<K>>): seq<K> {
    if |probes| == 0 then []
    else (if probes[0].onlyGetFromCache then [] else [probes[0].key]) + Requested(probes[1..])
  }

  lemma RequestedAppend<K>(a: seq<Probe<K>>, b: seq<Probe<K>>)
    ensures Requested(a + b) == Requested(a) + Requested(b)
  {
    if |a| > 0 {
      var h := if a[0].onlyGetFromCache then [] else [a[0].key];
      assert (a + b)[0] == a[0];
      assert (a + b)[1..] == a[1..] + b;
      RequestedAppend(a[1..], b);
      assert Requested(a + b) == h + Requested(a[1..] + b);
      assert Requested(a) == h + Requested(a[1..]);
    } else {
      assert a + b == b;
    }
  }

  lemma {:induction false} RequestedHeadOnly<K>(probes: seq<Probe<K>>)
    requires |probes| >= 1 && !probes[0].onlyGetFromCache
    requires forall i :: 1 <= i < |probes| ==> probes[i].onlyGetFromCache
    ensures Requested(probes) == [probes[0].key]
    decreases |probes|
  {
    RequestedNone(probes[1..]);
  }

  lemma {:induction false} RequestedNone<K>(probes: seq<Probe<K>>)
    requires forall i :: 0 <= i < |probes| ==> probes[i].onlyGetFromCache
    ensures Requested(probes) == []
    decreases |probes|
  {
    if |probes| > 0 {
      RequestedNone(probes[1..]);
    }
  }

}
