/** The integer half of the Bing Maps Tile System ("Tile Coordinates and
    Quadkeys"): map size per level of detail, pixel/tile conversion and the
    bit-interleaving quadkey encoding. The floating-point projection between
    longitude/latitude and pixels is not part of this model. */
module BingTileSystem {
  import opened JavaInt

  datatype Point = Point(x: int, y: int)

  /** Pixel width and height of one tile. */
  const TileSize: int := 256

  /** `Math.min(Math.max(n, minValue), maxValue)`. */
  function Clip(n: real, minValue: real, maxValue: real): (r: real)
    ensures minValue <= maxValue ==> minValue <= r <= maxValue
    ensures minValue <= n <= maxValue ==> r == n
    ensures minValue <= maxValue && n < minValue ==> r == minValue
    ensures n > maxValue ==> r == maxValue
    ensures maxValue < minValue ==> r == maxValue
  {
    var atLeast := if n >= minValue then n else minValue;
    if atLeast <= maxValue then atLeast else maxValue
  }

  /** `256 << levelOfDetail` on a Java `int`: the shift distance is taken
      modulo 32 and the product wraps to 32 bits. */
  function MapSize(levelOfDetail: int): (r: int)
    ensures IsInt(r)
  {
    ToInt(TileSize * Pow2(levelOfDetail % 32))
  }

  /** For the levels the renderer uses the map is 256 * 2^level pixels wide. */
  lemma {:induction false} MapSizeExact(levelOfDetail: int)
    requires 0 <= levelOfDetail <= 22
    ensures MapSize(levelOfDetail) == TileSize * Pow2(levelOfDetail)
    ensures MapSize(levelOfDetail) > 0
  {
    assert levelOfDetail % 32 == levelOfDetail;
    Pow2Monotone(levelOfDetail, 22);
    Pow2At22();
    assert TileSize * Pow2(levelOfDetail) <= TileSize * 0x40_0000;
  }

  lemma {:induction false} Pow2Monotone(a: nat, b: nat)
    requires a <= b
    ensures Pow2(a) <= Pow2(b)
    decreases b
  {
    if a < b {
      Pow2Monotone(a, b - 1);
    }
  }

  lemma Pow2At22()
    ensures Pow2(22) == 0x40_0000
  {
    assert Pow2(4) == 16;
    assert Pow2(8) == 256;
    assert Pow2(12) == 4096;
    assert Pow2(16) == 65536;
    assert Pow2(20) == 0x10_0000;
  }

  /** At level 23, which the documentation of the level parameters still
      admits, `256 << 23` is 2^31 and wraps to the most negative `int`. */
  lemma MapSizeOverflowsAt23()
    ensures MapSize(23) == IntMin
    ensures MapSize(23) < 0
  {
    Pow2At22();
    assert Pow2(23) == 2 * Pow2(22);
    assert TileSize * Pow2(23 % 32) == 0x8000_0000;
    assert (0x8000_0000 - IntMin) % 0x1_0000_0000 == 0;
  }

  /** The width the original C# code computes with an unsigned shift, which
      the Java port evidently meant: 256 * 2^level for levels 1 to 23. */
  function MapSizeUnsigned(levelOfDetail: int): (r: nat)
    requires 1 <= levelOfDetail <= 23
    ensures r == TileSize * Pow2(levelOfDetail)
    ensures 512 <= r <= 0x8000_0000
  {
    Pow2Monotone(1, levelOfDetail);
    Pow2Monotone(levelOfDetail, 23);
    Pow2At22();
    TileSize * Pow2(levelOfDetail)
  }

  /** The unsigned width is positive at every documented level and agrees
      with the Java result wherever the Java shift does not overflow. */
  lemma MapSizeUnsignedAgrees(levelOfDetail: int)
    requires 1 <= levelOfDetail <= 23
    ensures MapSizeUnsigned(levelOfDetail) > 0
    ensures levelOfDetail <= 22 ==> MapSize(levelOfDetail) == MapSizeUnsigned(levelOfDetail)
  {
    if levelOfDetail <= 22 {
      MapSizeExact(levelOfDetail);
    }
  }

  /** The tile that contains a pixel: Java `int` division by 256. */
  function PixelXYToTileXY(pixelX: int, pixelY: int): (r: Point)
    ensures pixelX >= 0 ==> TileSize * r.x <= pixelX < TileSize * r.x + TileSize
    ensures pixelY >= 0 ==> TileSize * r.y <= pixelY < TileSize * r.y + TileSize
    ensures pixelX >= 0 && pixelY >= 0 ==> r.x >= 0 && r.y >= 0
  {
    Point(Quot(pixelX, TileSize), Quot(pixelY, TileSize))
  }

  /** The upper-left pixel of a tile: Java `int` multiplication by 256. */
  function TileXYToPixelXY(tileX: int, tileY: int): (r: Point)
    ensures IsInt(r.x) && IsInt(r.y)
    ensures IsInt(tileX * TileSize) ==> r.x == tileX * TileSize
    ensures IsInt(tileY * TileSize) ==> r.y == tileY * TileSize
  {
    Point(ToInt(tileX * TileSize), ToInt(tileY * TileSize))
  }

  /** A tile's upper-left pixel lies in that tile, as long as the
      multiplication does not overflow. */
  lemma TilePixelRoundTrip(tileX: int, tileY: int)
    requires -0x80_0000 <= tileX < 0x80_0000 && -0x80_0000 <= tileY < 0x80_0000
    ensures var p := TileXYToPixelXY(tileX, tileY); PixelXYToTileXY(p.x, p.y) == Point(tileX, tileY)
  {
    var p := TileXYToPixelXY(tileX, tileY);
    if tileX >= 0 {
      DivUnique(p.x, TileSize, tileX, 0);
    } else {
      DivUnique(-p.x, TileSize, -tileX, 0);
    }
    if tileY >= 0 {
      DivUnique(p.y, TileSize, tileY, 0);
    } else {
      DivUnique(-p.y, TileSize, -tileY, 0);
    }
  }

  /** The quadkey digit for one level: the x bit is the low bit of the
      digit and the y bit the high bit. */
  function Digit(xBit: int, yBit: int): (c: char)
    requires 0 <= xBit <= 1 && 0 <= yBit <= 1
    ensures '0' <= c <= '3'
  {
    ('0' as int + xBit + 2 * yBit) as char
  }

  predicate IsQuadKeyDigit(c: char) {
    '0' <= c <= '3'
  }

  predicate IsQuadKey(q: string) {
    forall i :: 0 <= i < |q| ==> IsQuadKeyDigit(q[i])
  }

  /** `tileXYToQuadKey`: one digit per level, from level `levelOfDetail`
      down to 1, where the digit for level i tests bit i-1 (`1 << (i - 1)`)
      of the tile coordinates. A level of 0 or less gives the empty key. */
  function TileXYToQuadKey(tileX: int, tileY: int, levelOfDetail: int): (q: string)
    ensures |q| == if levelOfDetail > 0 then levelOfDetail else 0
    ensures IsQuadKey(q)
  {
    if levelOfDetail <= 0 then []
    else seq(levelOfDetail, j requires 0 <= j < levelOfDetail =>
           Digit(Bit(tileX, levelOfDetail - 1 - j), Bit(tileY, levelOfDetail - 1 - j)))
  }

  /** The bit a quadkey digit sets in tileX: '1' and '3'. Any other
      character, including an invalid one, sets nothing. */
  function XBitOf(c: char): int {
    if c == '1' || c == '3' then 1 else 0
  }

  /** The bit a quadkey digit sets in tileY: '2' and '3'. */
  function YBitOf(c: char): int {
    if c == '2' || c == '3' then 1 else 0
  }

  /** `quadKeyToTileXY`: the digit at position k from the left ORs the mask
      2^(|q|-1-k) into the coordinates. The same sum is accumulated here from
      the last digit backwards. A character outside '0'..'3' is reported by
      the Java code and contributes no bits. */
  function QuadKeyToTileXY(quadKey: string): (p: Point)
    ensures 0 <= p.x < Pow2(|quadKey|) && 0 <= p.y < Pow2(|quadKey|)
    decreases |quadKey|
  {
    if |quadKey| == 0 then Point(0, 0)
    else
      var last := quadKey[|quadKey| - 1];
      var p := QuadKeyToTileXY(quadKey[..|quadKey| - 1]);
      Point(2 * p.x + XBitOf(last), 2 * p.y + YBitOf(last))
  }

  /** Dropping the last digit of a key gives the key of the parent tile,
      and the last digit holds the low bits. */
  lemma QuadKeyParent(tileX: int, tileY: int, levelOfDetail: int)
    requires levelOfDetail >= 1
    ensures var q := TileXYToQuadKey(tileX, tileY, levelOfDetail);
      && q[..levelOfDetail - 1] == TileXYToQuadKey(tileX / 2, tileY / 2, levelOfDetail - 1)
      && q[levelOfDetail - 1] == Digit(tileX % 2, tileY % 2)
  {
    var q := TileXYToQuadKey(tileX, tileY, levelOfDetail);
    var parent := TileXYToQuadKey(tileX / 2, tileY / 2, levelOfDetail - 1);
    assert |q[..levelOfDetail - 1]| == |parent|;
    assert Bit(tileX, 0) == tileX % 2 && Bit(tileY, 0) == tileY % 2;
    assert q[levelOfDetail - 1] == Digit(Bit(tileX, 0), Bit(tileY, 0));
    forall j | 0 <= j < levelOfDetail - 1
      ensures q[j] == parent[j]
    {
      assert Bit(tileX, levelOfDetail - 1 - j) == Bit(tileX / 2, levelOfDetail - 2 - j);
      assert Bit(tileY, levelOfDetail - 1 - j) == Bit(tileY / 2, levelOfDetail - 2 - j);
    }
  }

  /** Decoding the key of an in-range tile gives the tile back. */
  lemma {:induction false} QuadKeyRoundTrip(tileX: int, tileY: int, levelOfDetail: nat)
    requires 0 <= tileX < Pow2(levelOfDetail) && 0 <= tileY < Pow2(levelOfDetail)
    ensures QuadKeyToTileXY(TileXYToQuadKey(tileX, tileY, levelOfDetail)) == Point(tileX, tileY)
    decreases levelOfDetail
  {
    if levelOfDetail > 0 {
      var q := TileXYToQuadKey(tileX, tileY, levelOfDetail);
      QuadKeyParent(tileX, tileY, levelOfDetail);
      HalfBelow(tileX, levelOfDetail);
      HalfBelow(tileY, levelOfDetail);
      QuadKeyRoundTrip(tileX / 2, tileY / 2, levelOfDetail - 1);
      DigitBits(tileX % 2, tileY % 2);
    }
  }

  lemma HalfBelow(n: int, levelOfDetail: nat)
    requires levelOfDetail > 0 && 0 <= n < Pow2(levelOfDetail)
    ensures 0 <= n / 2 < Pow2(levelOfDetail - 1)
  {
  }

  lemma DigitBits(xBit: int, yBit: int)
    requires 0 <= xBit <= 1 && 0 <= yBit <= 1
    ensures XBitOf(Digit(xBit, yBit)) == xBit && YBitOf(Digit(xBit, yBit)) == yBit
  {
  }

  /** Encoding the decoded tile at the key's own length gives the key back. */
  lemma {:induction false} QuadKeyReverseRoundTrip(quadKey: string)
    requires IsQuadKey(quadKey)
    ensures var p := QuadKeyToTileXY(quadKey); TileXYToQuadKey(p.x, p.y, |quadKey|) == quadKey
    decreases |quadKey|
  {
    var n := |quadKey|;
    if n > 0 {
      var init := quadKey[..n - 1];
      var last := quadKey[n - 1];
      var pp := QuadKeyToTileXY(init);
      var p := QuadKeyToTileXY(quadKey);
      QuadKeyReverseRoundTrip(init);
      QuadKeyParent(p.x, p.y, n);
      assert p.x / 2 == pp.x && p.y / 2 == pp.y;
      assert p.x % 2 == XBitOf(last) && p.y % 2 == YBitOf(last);
      var q := TileXYToQuadKey(p.x, p.y, n);
      assert q[..n - 1] == init;
      assert q[n - 1] == last;
      assert q == q[..n - 1] + [q[n - 1]];
      assert quadKey == init + [last];
    }
  }

  /** The first k digits of a tile's key at level l are the key, at level k,
      of the tile's ancestor: its coordinates divided by 2^(l-k). This is what
      makes truncating a key a way to find a coarser tile covering it. */
  lemma QuadKeyPrefixIsAncestor(tileX: int, tileY: int, levelOfDetail: int, k: int)
    requires 0 <= k <= levelOfDetail
    ensures TileXYToQuadKey(tileX, tileY, levelOfDetail)[..k]
         == TileXYToQuadKey(tileX / Pow2(levelOfDetail - k), tileY / Pow2(levelOfDetail - k), k)
  {
    var q := TileXYToQuadKey(tileX, tileY, levelOfDetail);
    var a := levelOfDetail - k;
    var anc := TileXYToQuadKey(tileX / Pow2(a), tileY / Pow2(a), k);
    assert |q[..k]| == |anc|;
    forall j | 0 <= j < k
      ensures q[j] == anc[j]
    {
      BitOfShifted(tileX, a, k - 1 - j);
      BitOfShifted(tileY, a, k - 1 - j);
    }
  }

  /** Distinct in-range tiles at one level have distinct keys. */
  lemma QuadKeyInjective(x1: int, y1: int, x2: int, y2: int, levelOfDetail: nat)
    requires 0 <= x1 < Pow2(levelOfDetail) && 0 <= y1 < Pow2(levelOfDetail)
    requires 0 <= x2 < Pow2(levelOfDetail) && 0 <= y2 < Pow2(levelOfDetail)
    requires TileXYToQuadKey(x1, y1, levelOfDetail) == TileXYToQuadKey(x2, y2, levelOfDetail)
    ensures x1 == x2 && y1 == y2
  {
    QuadKeyRoundTrip(x1, y1, levelOfDetail);
    QuadKeyRoundTrip(x2, y2, levelOfDetail);
  }

  /** The key with every character outside '0'..'3' replaced by '0'. */
  function ValidDigits(quadKey: string): (r: string)
    ensures |r| == |quadKey| && IsQuadKey(r)
    ensures forall i :: 0 <= i < |quadKey| && IsQuadKeyDigit(quadKey[i]) ==> r[i] == quadKey[i]
  {
    seq(|quadKey|, i requires 0 <= i < |quadKey| =>
      if IsQuadKeyDigit(quadKey[i]) then quadKey[i] else '0')
  }

  /** An invalid quadkey character decodes exactly like '0'. */
  lemma {:induction false} InvalidDigitReadsAsZero(quadKey: string)
    ensures QuadKeyToTileXY(quadKey) == QuadKeyToTileXY(ValidDigits(quadKey))
    decreases |quadKey|
  {
    var n := |quadKey|;
    if n > 0 {
      var v := ValidDigits(quadKey);
      assert v[..n - 1] == ValidDigits(quadKey[..n - 1]);
      InvalidDigitReadsAsZero(quadKey[..n - 1]);
    }
  }
}
