/** The sprite table of one colour channel: palette indexing in place, the split into tiles, and the generated chain
    of range tests that reads the tiles back. */
module SpriteTiles {
  import opened ColourMerge
  import opened Division

  // ------------------------------------------------------------------ palette indexing in place

  /** The palette of a list: its elements once each, in the order in which they first occur. */
  function Palette(lst: seq<int>): seq<int> {
    if lst == [] then []
    else
      var front, last := Palette(lst[..|lst| - 1]), lst[|lst| - 1];
      if last in front then front else front + [last]
  }

  ghost predicate Distinct(keys: seq<int>) {
    forall a, b :: 0 <= a < b < |keys| ==> keys[a] != keys[b]
  }

  lemma {:induction false} PaletteLists(lst: seq<int>)
    ensures Distinct(Palette(lst)) && forall v :: v in Palette(lst) <==> v in lst
  {
    if lst != [] {
      PaletteLists(lst[..|lst| - 1]);
    }
  }

  /** A colour comes before another in the palette if it is met first. */
  lemma {:induction false} PaletteInOrder(lst: seq<int>, n: nat)
    requires n <= |lst|
    ensures |Palette(lst[..n])| <= |Palette(lst)| && Palette(lst[..n]) == Palette(lst)[..|Palette(lst[..n])|]
    decreases |lst| - n
  {
    if n < |lst| {
      PaletteInOrder(lst, n + 1);
      assert lst[..n + 1][..n] == lst[..n];
    } else {
      assert lst[..n] == lst;
    }
  }

  /** What the indexing loop has made of an element v after the first n colours. */
  function Relabelled(v: int, keys: seq<int>, n: nat): int
    requires n <= |keys|
  {
    if n == 0 then v
    else
      var x := Relabelled(v, keys, n - 1);
      if x == keys[n - 1] then n - 1 else x
  }

  /** Every palette entry is at least as large as its own index. */
  predicate IndicesBelowColours(keys: seq<int>) {
    forall b :: 0 <= b < |keys| ==> keys[b] >= b
  }

  lemma {:induction false} UntouchedBefore(keys: seq<int>, a: nat, n: nat)
    requires n <= a < |keys| && Distinct(keys)
    ensures Relabelled(keys[a], keys, n) == keys[a]
  {
    if n > 0 {
      UntouchedBefore(keys, a, n - 1);
    }
  }

  /** A colour's index stays as it is until a later colour equals it; then it grows, and stays larger. */
  lemma {:induction false} IndexedAfter(keys: seq<int>, a: nat, n: nat)
    requires a < n <= |keys| && Distinct(keys)
    ensures a <= Relabelled(keys[a], keys, n) < n
    ensures Relabelled(keys[a], keys, n) == a <==> forall b :: a < b < n ==> keys[b] != a
    decreases n
  {
    if n == a + 1 {
      UntouchedBefore(keys, a, a);
    } else {
      IndexedAfter(keys, a, n - 1);
    }
  }

  predicate IndexedRight(v: int, keys: seq<int>) {
    var i := Relabelled(v, keys, |keys|);
    0 <= i < |keys| && keys[i] == v
  }

  /** Looking the index of every element up in the palette gives its colour back exactly if the palette's entries are
      at least as large as their indices: otherwise the loop takes an index it has already written for a colour. */
  lemma ReadBackIff(lst: seq<int>)
    requires forall v :: v in lst ==> v >= 0
    ensures (forall v :: v in lst ==> IndexedRight(v, Palette(lst))) <==> IndicesBelowColours(Palette(lst))
  {
    var keys := Palette(lst);
    PaletteLists(lst);
    if IndicesBelowColours(keys) {
      forall v | v in lst
        ensures IndexedRight(v, keys)
      {
        assert v in keys;
        var a :| 0 <= a < |keys| && keys[a] == v;
        IndexedAfter(keys, a, |keys|);
      }
    } else {
      var b :| 0 <= b < |keys| && keys[b] < b;
      assert keys[b] in keys && keys[keys[b]] in keys;
      IndexedAfter(keys, keys[b], |keys|);
    }
  }

  /** A list for which it fails: a pixel of colour 1 before one of colour 0. Both end up with index 1, of colour 0. */
  lemma OneBeforeZero()
    ensures Palette([1, 0]) == [1, 0] && !IndicesBelowColours([1, 0])
    ensures Relabelled(1, [1, 0], 2) == Relabelled(0, [1, 0], 2) == 1 && !IndexedRight(1, [1, 0])
  {
    assert [1, 0][..1] == [1];
    assert [1][..0] == [];
    assert Palette([1]) == [1];
    assert [1, 0][1] < 1;
    assert Relabelled(1, [1, 0], 1) == 0 && Relabelled(0, [1, 0], 1) == 0;
  }

  /** Counts the colours in the order of their first occurrence. */
  method Colours(lst: array<int>) returns (keys: seq<int>)
    ensures keys == Palette(lst[..])
  {
    keys := [];
    for i := 0 to lst.Length
      invariant keys == Palette(lst[..i])
    {
      assert lst[..i + 1][..i] == lst[..i];
      if lst[i] !in keys {
        keys := keys + [lst[i]];
      }
    }
    assert lst[..lst.Length] == lst[..];
  }

  /** Replaces the elements of the list by palette indices, one colour at a time, in place. */
  method IndexColours(lst: array<int>, keys: seq<int>)
    modifies lst
    ensures forall i :: 0 <= i < lst.Length ==> lst[i] == Relabelled(old(lst[i]), keys, |keys|)
  {
    for k := 0 to |keys|
      invariant forall i :: 0 <= i < lst.Length ==> lst[i] == Relabelled(old(lst[i]), keys, k)
    {
      for i := 0 to lst.Length
        invariant forall j :: 0 <= j < i ==> lst[j] == Relabelled(old(lst[j]), keys, k + 1)
        invariant forall j :: i <= j < lst.Length ==> lst[j] == Relabelled(old(lst[j]), keys, k)
      {
        if lst[i] == keys[k] {
          lst[i] := k;
        }
      }
    }
  }

  // ------------------------------------------------------------------ tiles

  /** How many tiles of size n cover w pixels; the last one may be smaller. */
  function Tiles(w: nat, n: nat): nat
    requires n > 0
  {
    w / n + (if w % n != 0 then 1 else 0)
  }

  /** The size of tile i in one direction. */
  function Extent(i: nat, w: nat, n: nat): int
    requires n > 0
  {
    if i == w / n then w - i * n else n
  }

  /** Pixel x lies in tile x / n, at place x % n of it. */
  lemma TileOf(x: nat, w: nat, n: nat)
    requires x < w && n > 0
    ensures 0 <= x / n < Tiles(w, n) && x % n < Extent(x / n, w, n)
    ensures x / n * n <= x < x / n * n + n
  {
  }

  lemma InTileIff(x: nat, i: nat, n: nat)
    requires n > 0
    ensures i * n <= x < i * n + n <==> i == x / n
  {
    assert x == x / n * n + x % n;
    if i * n <= x < i * n + n {
      DivUnique(x, i, x - i * n, n);
    }
  }

  /** The tiles are those that start before the end, and their places are exactly the pixels: place c of tile i is pixel
      i * n + c, so the last tile is cut to the image. */
  lemma TilePlacesArePixels(i: nat, c: nat, w: nat, n: nat)
    requires n > 0
    ensures i < Tiles(w, n) <==> i * n < w
    ensures i < Tiles(w, n) && c < Extent(i, w, n) <==> c < n && i * n + c < w
    ensures i < Tiles(w, n) && c < Extent(i, w, n) ==> (i * n + c) / n == i && (i * n + c) % n == c
  {
    NotNegative(i, n);
    if i < Tiles(w, n) {
      StartBelow(i, n, w);
      ExtentIsPositive(i, w, n);
      FullTileFits(i, n, w);
    } else {
      StartBehind(i, n, w);
    }
    if c < n {
      DivUnique(i * n + c, i, c, n);
      RemUnique(i * n + c, i, c, n);
    }
  }

  lemma FullTileFits(i: nat, n: nat, w: nat)
    requires n > 0 && i < Tiles(w, n)
    ensures i != w / n ==> i * n + n <= w
  {
    assert w == w / n * n + w % n;
    if i != w / n {
      AtLeastOnce(w / n - i, n);
      assert (w / n - i) * n == w / n * n - i * n;
    }
  }

  lemma StartBehind(i: nat, n: nat, w: nat)
    requires n > 0 && i >= Tiles(w, n)
    ensures i * n >= w
  {
    assert w == w / n * n + w % n;
    var gap := i - w / n;
    assert gap * n == i * n - w / n * n;
    if gap > 0 {
      AtLeastOnce(gap, n);
    }
  }

  type Table = seq<seq<int>>
  type TileIndex = (nat, nat)

  /** The tile (i, j) has its pixels from the list, row by row, and no others. */
  ghost predicate IsTile(table: Table, i: nat, j: nat, w: nat, h: nat, nc: nat, nr: nat)
    requires nc > 0 && nr > 0
  {
    && |table| == Extent(j, h, nr)
    && (forall y :: 0 <= y < |table| ==> |table[y]| == Extent(i, w, nc))
  }

  /** The tiles of a w by h image, all of the right shape. */
  ghost predicate Tiled(tables: map<TileIndex, Table>, w: nat, h: nat, nc: nat, nr: nat)
    requires nc > 0 && nr > 0
  {
    && (forall i: nat, j: nat :: (i, j) in tables <==> i < Tiles(w, nc) && j < Tiles(h, nr))
    && (forall i: nat, j: nat :: (i, j) in tables ==> IsTile(tables[(i, j)], i, j, w, h, nc, nr))
  }

  /** The entry the tables hold for pixel (x, y). */
  ghost function Entry(tables: map<TileIndex, Table>, x: nat, y: nat, w: nat, h: nat, nc: nat, nr: nat): int
    requires nc > 0 && nr > 0 && Tiled(tables, w, h, nc, nr) && x < w && y < h
  {
    TileOf(x, w, nc);
    TileOf(y, h, nr);
    tables[(x / nc, y / nr)][y % nr][x % nc]
  }

  /** A table of zeroes for every tile. */
  method EmptyTables(w: nat, h: nat, nc: nat, nr: nat) returns (tables: map<TileIndex, Table>)
    requires nc > 0 && nr > 0
    ensures Tiled(tables, w, h, nc, nr)
  {
    tables := map[];
    var tx, ty := Tiles(w, nc), Tiles(h, nr);
    for i: nat := 0 to tx
      invariant forall a: nat, b: nat :: (a, b) in tables <==> a < i && b < ty
      invariant forall a: nat, b: nat :: (a, b) in tables ==> IsTile(tables[(a, b)], a, b, w, h, nc, nr)
    {
      for j: nat := 0 to ty
        invariant forall a: nat, b: nat :: (a, b) in tables <==> (a < i && b < ty) || (a == i && b < j)
        invariant forall a: nat, b: nat :: (a, b) in tables ==> IsTile(tables[(a, b)], a, b, w, h, nc, nr)
      {
        ExtentIsPositive(i, w, nc);
        ExtentIsPositive(j, h, nr);
        var xdim := if i == w / nc then w - i * nc else nc;
        var ydim := if j == h / nr then h - j * nr else nr;
        if xdim != 0 && ydim != 0 {
          tables := tables[(i, j) := seq(ydim, _ => seq(xdim, _ => 0))];
        }
      }
    }
  }

  lemma ExtentIsPositive(i: nat, w: nat, n: nat)
    requires n > 0 && i < Tiles(w, n)
    ensures 0 < Extent(i, w, n) <= n
  {
  }

  /** Two pixels share a table entry only if they are the same. */
  lemma EntryIsOwn(x: nat, x': nat, n: nat)
    requires n > 0 && x / n == x' / n && x % n == x' % n
    ensures x == x'
  {
  }

  /** The tables with one pixel's entry set. */
  function Put(tables: map<TileIndex, Table>, x: nat, y: nat, nc: nat, nr: nat, v: int): map<TileIndex, Table>
    requires nc > 0 && nr > 0 && (x / nc, y / nr) in tables
    requires var t := tables[(x / nc, y / nr)]; y % nr < |t| && x % nc < |t[y % nr]|
  {
    var t := tables[(x / nc, y / nr)];
    tables[(x / nc, y / nr) := t[y % nr := t[y % nr][x % nc := v]]]
  }

  lemma PutEntry(tables: map<TileIndex, Table>, x: nat, y: nat, w: nat, h: nat, nc: nat, nr: nat, v: int)
    requires nc > 0 && nr > 0 && Tiled(tables, w, h, nc, nr) && x < w && y < h
    ensures (x / nc, y / nr) in tables
    ensures var t := tables[(x / nc, y / nr)]; y % nr < |t| && x % nc < |t[y % nr]|
    ensures Tiled(Put(tables, x, y, nc, nr, v), w, h, nc, nr)
    ensures forall x': nat, y': nat :: x' < w && y' < h ==>
      Entry(Put(tables, x, y, nc, nr, v), x', y', w, h, nc, nr)
      == if x' == x && y' == y then v else Entry(tables, x', y', w, h, nc, nr)
  {
    TileOf(x, w, nc);
    TileOf(y, h, nr);
    var after := Put(tables, x, y, nc, nr, v);
    forall i: nat, j: nat | (i, j) in after
      ensures IsTile(after[(i, j)], i, j, w, h, nc, nr)
    {
    }
    forall x': nat, y': nat | x' < w && y' < h
      ensures Entry(after, x', y', w, h, nc, nr) == if x' == x && y' == y then v else Entry(tables, x', y', w, h, nc, nr)
    {
      TileOf(x', w, nc);
      TileOf(y', h, nr);
      if x' / nc == x / nc && x' % nc == x % nc {
        EntryIsOwn(x, x', nc);
      }
      if y' / nr == y / nr && y' % nr == y % nr {
        EntryIsOwn(y, y', nr);
      }
    }
  }

  lemma PixelIndex(x: nat, y: nat, w: nat, h: nat)
    requires x < w && y < h
    ensures 0 <= y * w + x < w * h
  {
    NotNegative(y, w);
    assert (h - 1 - y) * w >= 0 by {
      NotNegative(h - 1 - y, w);
    }
  }

  /** The pixel (x, y) of an image that is given row by row. */
  ghost function PixelAt(lst: seq<int>, x: nat, y: nat, w: nat, h: nat): int
    requires x < w && y < h && |lst| == w * h
  {
    PixelIndex(x, y, w, h);
    lst[y * w + x]
  }

  /** Every pixel done so far has its entry: all rows before j, and row j up to column i. */
  ghost predicate Filled(tables: map<TileIndex, Table>, lst: seq<int>, i: nat, j: nat, w: nat, h: nat, nc: nat, nr: nat)
    requires nc > 0 && nr > 0 && Tiled(tables, w, h, nc, nr) && |lst| == w * h
  {
    forall x: nat, y: nat :: x < w && y < h && (y < j || (y == j && x < i)) ==>
      Entry(tables, x, y, w, h, nc, nr) == PixelAt(lst, x, y, w, h)
  }

  /** A pixel's place in its tile's table is row y % nr, column x % nc. */
  lemma TablesHoldPixels(tables: map<TileIndex, Table>, lst: seq<int>, x: nat, y: nat, w: nat, h: nat, nc: nat, nr: nat)
    requires nc > 0 && nr > 0 && Tiled(tables, w, h, nc, nr) && |lst| == w * h && Filled(tables, lst, 0, h, w, h, nc, nr)
    requires x < w && y < h
    ensures (x / nc, y / nr) in tables
    ensures var t := tables[(x / nc, y / nr)]; y % nr < |t| && x % nc < |t[y % nr]|
    ensures 0 <= y * w + x < |lst| && tables[(x / nc, y / nr)][y % nr][x % nc] == lst[y * w + x]
  {
    TileOf(x, w, nc);
    TileOf(y, h, nr);
    PixelIndex(x, y, w, h);
    assert Entry(tables, x, y, w, h, nc, nr) == PixelAt(lst, x, y, w, h);
  }

  /** The loops of split_sprite_table that make the tables and fill them pixel by pixel. */
  method SplitTable(lst: seq<int>, w: nat, h: nat, nc: nat, nr: nat) returns (tables: map<TileIndex, Table>)
    requires nc > 0 && nr > 0 && |lst| == w * h
    ensures Tiled(tables, w, h, nc, nr) && Filled(tables, lst, 0, h, w, h, nc, nr)
  {
    tables := EmptyTables(w, h, nc, nr);
    for j := 0 to h
      invariant Tiled(tables, w, h, nc, nr) && Filled(tables, lst, 0, j, w, h, nc, nr)
    {
      for i := 0 to w
        invariant Tiled(tables, w, h, nc, nr) && Filled(tables, lst, i, j, w, h, nc, nr)
      {
        PixelIndex(i, j, w, h);
        PutEntry(tables, i, j, w, h, nc, nr, lst[j * w + i]);
        tables := Put(tables, i, j, nc, nr, lst[j * w + i]);
      }
    }
  }

  // ------------------------------------------------------------------ the generated range tests

  /** A literal 10'd{n} of the generated code: ten bits of the number. */
  function Lit10(n: nat): nat {
    n % 1024
  }

  /** X_Index and Y_Index of the generated code; minus one stands for the unknown remainder by a literal zero. */
  function PlaceInTile(x: nat, n: nat): int {
    if Lit10(n) == 0 then -1 else x % Lit10(n)
  }

  /** The tile size fits its ten-bit literal, or what is left of it still exceeds every pixel of the one tile. */
  predicate PlacesFit(n: nat, w: nat) {
    n < 1024 || w <= n % 1024
  }

  /** The computed places are those of the tiles exactly under that condition. */
  lemma PlacesRightIff(n: nat, w: nat)
    requires n > 0 && 0 < w < 1024
    ensures (forall x: nat :: x < w ==> PlaceInTile(x, n) == x % n) <==> PlacesFit(n, w)
  {
    forall x: nat | x < w && PlacesFit(n, w)
      ensures PlaceInTile(x, n) == x % n
    {
      PlaceIsRight(x, n, w);
    }
    if !PlacesFit(n, w) {
      var x := n % 1024;
      SmallModulo(x, n);
      assert PlaceInTile(x, n) != x % n;
    }
  }

  lemma PlaceIsRight(x: nat, n: nat, w: nat)
    requires n > 0 && x < w < 1024 && PlacesFit(n, w)
    ensures PlaceInTile(x, n) == x % n
  {
    if n >= 1024 {
      SmallModulo(x, n);
      SmallModulo(x, Lit10(n));
    }
  }

  lemma SmallModulo(x: nat, n: nat)
    requires x < n
    ensures x % n == x
  {
    RemUnique(x, 0, x, n);
  }

  function UpperPixel(idx: nat, n: nat, w: nat): nat {
    if (idx + 1) * n < w then (idx + 1) * n else w
  }

  /** The range test generated for tile index i in one direction. */
  predicate InRange(x: nat, i: nat, n: nat, w: nat) {
    Lit10(i * n) <= x < Lit10(UpperPixel(i, n, w))
  }

  /** The condition generated for a tile. */
  predicate Selects(x: nat, y: nat, t: TileIndex, w: nat, h: nat, nc: nat, nr: nat) {
    InRange(x, t.0, nc, w) && InRange(y, t.1, nr, h)
  }

  /** With less than 1024 pixels in a direction no literal is cut short, and a pixel passes the test of its own
      tile only. */
  lemma OwnRangeOnly(x: nat, i: nat, n: nat, w: nat)
    requires n > 0 && w < 1024 && i < Tiles(w, n)
    ensures InRange(x, i, n, w) <==> x < w && i == x / n
  {
    StartBelow(i, n, w);
    NotNegative(i, n);
    NextStart(i, n);
    LiteralsCompare(x, i * n, (i + 1) * n, w);
    InTileIff(x, i, n);
  }

  lemma LiteralsCompare(x: nat, from: nat, upto: nat, w: nat)
    requires from < w < 1024
    ensures Lit10(from) <= x < Lit10(if upto < w then upto else w) <==> from <= x < upto && x < w
  {
  }

  lemma NextStart(i: nat, n: nat)
    ensures (i + 1) * n == i * n + n
  {
  }

  lemma StartBelow(i: nat, n: nat, w: nat)
    requires n > 0 && i < Tiles(w, n)
    ensures i * n < w
  {
    assert w == w / n * n + w % n;
    if i < w / n {
      assert (w / n - i) * n >= n by {
        AtLeastOnce(w / n - i, n);
      }
    } else {
      assert i == w / n;
    }
  }

  /** From 1024 pixels on, pixel 1023 passes no test at all, whatever the tile: no ten-bit literal is larger. */
  lemma LastPixelIsLost(i: nat, n: nat, w: nat)
    ensures !InRange(1023, i, n, w)
  {
  }

  /** Each addressable pixel of the image passes exactly one of the generated tests, that of its own tile, exactly
      if the image is less than 1024 pixels wide and high. */
  lemma EachPixelSelectedOnce(w: nat, h: nat, nc: nat, nr: nat)
    requires nc > 0 && nr > 0 && w > 0 && h > 0
    ensures (forall x: nat, y: nat :: x < w && y < h && x < 1024 && y < 1024 ==> SelectedOnce(x, y, w, h, nc, nr))
            <==> w < 1024 && h < 1024
  {
    if w < 1024 && h < 1024 {
      forall x: nat, y: nat | x < w && y < h && x < 1024 && y < 1024
        ensures SelectedOnce(x, y, w, h, nc, nr)
      {
        SelectsOwnTile(x, y, w, h, nc, nr);
      }
    } else {
      var x, y := if w < 1024 then 0 else 1023, if w < 1024 then 1023 else 0;
      var i: nat, j: nat := x / nc, y / nr;
      var own: TileIndex := (i, j);
      LastPixelIsLost(own.0, nc, w);
      LastPixelIsLost(own.1, nr, h);
      assert !Selects(x, y, own, w, h, nc, nr);
      assert !SelectedOnce(x, y, w, h, nc, nr);
    }
  }

  ghost predicate SelectedOnce(x: nat, y: nat, w: nat, h: nat, nc: nat, nr: nat)
    requires nc > 0 && nr > 0
  {
    && x / nc < Tiles(w, nc) && y / nr < Tiles(h, nr)
    && forall t: TileIndex :: t.0 < Tiles(w, nc) && t.1 < Tiles(h, nr) ==>
         (Selects(x, y, t, w, h, nc, nr) <==> t == (x / nc, y / nr))
  }

  lemma SelectsOwnTile(x: nat, y: nat, w: nat, h: nat, nc: nat, nr: nat)
    requires nc > 0 && nr > 0 && w < 1024 && h < 1024 && x < w && y < h
    ensures SelectedOnce(x, y, w, h, nc, nr)
  {
    TileOf(x, w, nc);
    TileOf(y, h, nr);
    forall t: TileIndex | t.0 < Tiles(w, nc) && t.1 < Tiles(h, nr)
      ensures Selects(x, y, t, w, h, nc, nr) <==> t == (x / nc, y / nr)
    {
      OwnRangeOnly(x, t.0, nc, w);
      OwnRangeOnly(y, t.1, nr, h);
    }
  }

  // ------------------------------------------------------------------ reading the sprite back

  /** What the generated always_comb block computes: the entry of the first tile of the chain whose test holds, at
      the pixel's place within the tile, and zero if there is none. */
  ghost function Chain(order: seq<TileIndex>, tables: map<TileIndex, Table>, x: nat, y: nat, w: nat, h: nat, nc: nat, nr: nat): int
    requires nc > 0 && nr > 0
    requires forall t :: t in order ==> t in tables
  {
    if order == [] then 0
    else if Selects(x, y, order[0], w, h, nc, nr) then
      var t := tables[order[0]];
      var yIndex, xIndex := PlaceInTile(y, nr), PlaceInTile(x, nc);
      if 0 <= yIndex < |t| && 0 <= xIndex < |t[yIndex]| then t[yIndex][xIndex] else 0
    else Chain(order[1..], tables, x, y, w, h, nc, nr)
  }

  /** The chain, in whatever order the tiles are tested, reads back the entry of the pixel; beyond the image it
      gives zero. */
  lemma {:induction false} ChainReadsBack(order: seq<TileIndex>, tables: map<TileIndex, Table>, own: TileIndex, x: nat, y: nat, w: nat, h: nat, nc: nat, nr: nat)
    requires nc > 0 && nr > 0 && w < 1024 && h < 1024 && PlacesFit(nc, w) && PlacesFit(nr, h)
    requires Tiled(tables, w, h, nc, nr)
    requires forall t :: t in order ==> t in tables
    requires own == (x / nc, y / nr) && (x < w && y < h ==> own in order)
    ensures Chain(order, tables, x, y, w, h, nc, nr)
         == if x < w && y < h then Entry(tables, x, y, w, h, nc, nr) else 0
    decreases |order|
  {
    if order != [] {
      var first := order[0];
      assert first in tables && (first.0, first.1) in tables;
      OwnRangeOnly(x, first.0, nc, w);
      OwnRangeOnly(y, first.1, nr, h);
      if Selects(x, y, first, w, h, nc, nr) {
        TileOf(x, w, nc);
        TileOf(y, h, nr);
        PlaceIsRight(x, nc, w);
        PlaceIsRight(y, nr, h);
      } else {
        ChainReadsBack(order[1..], tables, own, x, y, w, h, nc, nr);
      }
    }
  }

  // ------------------------------------------------------------------ one channel, from image to module

  /** What is generated for one channel: the palette, the tiles, and the order of the range tests. */
  datatype Sprite = Sprite(palette: seq<int>, tables: map<TileIndex, Table>, order: seq<TileIndex>)

  /** math.log10(0), or math.log2(0), raises ValueError when the channel has fewer than two colours. */
  datatype Compiled = ValueError | Ok(sprite: Sprite)

  /** The colour the generated module shows for pixel (x, y), if the palette has an entry for it. */
  ghost predicate Shows(s: Sprite, x: nat, y: nat, w: nat, h: nat, nc: nat, nr: nat, colour: int)
    requires nc > 0 && nr > 0 && forall t :: t in s.order ==> t in s.tables
  {
    var i := Chain(s.order, s.tables, x, y, w, h, nc, nr);
    0 <= i < |s.palette| && s.palette[i] == colour
  }

  /** The keys of a dictionary of tiles, in some order. */
  method InSomeOrder(tables: map<TileIndex, Table>) returns (order: seq<TileIndex>)
    ensures forall t :: t in order <==> t in tables
  {
    order := [];
    var rest := tables.Keys;
    while rest != {}
      invariant rest <= tables.Keys
      invariant forall t :: t in order || t in rest <==> t in tables
    {
      var t :| t in rest;
      order := order + [t];
      rest := rest - {t};
    }
  }

  lemma OccursAt(lst: seq<int>, v: int) returns (i: nat)
    requires v in lst
    ensures i < |lst| && lst[i] == v
  {
    i :| 0 <= i < |lst| && lst[i] == v;
  }

  /** split_sprite_table on a channel that has been merged. */
  method SplitSpriteTable(lst: array<int>, w: nat, h: nat, nc: nat, nr: nat) returns (r: Compiled)
    requires nc > 0 && nr > 0 && lst.Length == w * h
    modifies lst
    ensures r.ValueError? <==> |Palette(old(lst[..]))| < 2
    ensures r.ValueError? <==> forall i, j :: 0 <= i < lst.Length && 0 <= j < lst.Length ==> old(lst[i]) == old(lst[j])
    ensures r.Ok? ==> r.sprite.palette == Palette(old(lst[..]))
    ensures r.Ok? ==> Holds(r.sprite, old(lst[..]), lst[..], w, h, nc, nr)
  {
    var keys := Colours(lst);
    PaletteLists(lst[..]);
    if |keys| < 2 {
      forall i, j | 0 <= i < lst.Length && 0 <= j < lst.Length
        ensures lst[i] == lst[j]
      {
        assert lst[i] in lst[..] && lst[j] in lst[..];
      }
      return ValueError;
    }
    ghost var a := OccursAt(lst[..], keys[0]);
    ghost var b := OccursAt(lst[..], keys[1]);
    assert lst[a] != lst[b];
    IndexColours(lst, keys);
    var tables := SplitTable(lst[..], w, h, nc, nr);
    var order := InSomeOrder(tables);
    return Ok(Sprite(keys, tables, order));
  }

  /** The generated module shows every pixel of the image in its own colour. */
  ghost predicate ShowsAll(s: Sprite, lst: seq<int>, w: nat, h: nat, nc: nat, nr: nat)
    requires nc > 0 && nr > 0 && (forall t :: t in s.order ==> t in s.tables) && |lst| == w * h
  {
    forall x: nat, y: nat :: x < w && y < h ==> Shows(s, x, y, w, h, nc, nr, PixelAt(lst, x, y, w, h))
  }

  lemma ChainGivesEntry(s: Sprite, x: nat, y: nat, w: nat, h: nat, nc: nat, nr: nat)
    requires nc > 0 && nr > 0 && w < 1024 && h < 1024 && PlacesFit(nc, w) && PlacesFit(nr, h)
    requires x < w && y < h
    requires Tiled(s.tables, w, h, nc, nr) && forall t :: t in s.order <==> t in s.tables
    ensures Chain(s.order, s.tables, x, y, w, h, nc, nr) == Entry(s.tables, x, y, w, h, nc, nr)
  {
    TileOf(x, w, nc);
    TileOf(y, h, nr);
    var i: nat, j: nat := x / nc, y / nr;
    var own: TileIndex := (i, j);
    assert own in s.order by {
      assert own in s.tables;
    }
    ChainReadsBack(s.order, s.tables, own, x, y, w, h, nc, nr);
  }

  /** What split_sprite_table leaves behind: the tables hold the relabelled list, and all of them are in the chain. */
  ghost predicate Holds(s: Sprite, lst: seq<int>, indexed: seq<int>, w: nat, h: nat, nc: nat, nr: nat)
    requires nc > 0 && nr > 0
  {
    && |lst| == |indexed| == w * h
    && Tiled(s.tables, w, h, nc, nr) && (forall t :: t in s.order <==> t in s.tables)
    && (forall i :: 0 <= i < |lst| ==> indexed[i] == Relabelled(lst[i], s.palette, |s.palette|))
    && Filled(s.tables, indexed, 0, h, w, h, nc, nr)
  }

  lemma ShowsIndexed(lst: seq<int>, indexed: seq<int>, s: Sprite, x: nat, y: nat, w: nat, h: nat, nc: nat, nr: nat)
    requires nc > 0 && nr > 0 && w < 1024 && h < 1024 && PlacesFit(nc, w) && PlacesFit(nr, h)
    requires Holds(s, lst, indexed, w, h, nc, nr) && x < w && y < h
    ensures Shows(s, x, y, w, h, nc, nr, PixelAt(lst, x, y, w, h)) <==> IndexedRight(PixelAt(lst, x, y, w, h), s.palette)
  {
    var colour, index := PixelAt(lst, x, y, w, h), PixelAt(indexed, x, y, w, h);
    assert index == Relabelled(colour, s.palette, |s.palette|) by {
      PixelIndex(x, y, w, h);
    }
    assert Chain(s.order, s.tables, x, y, w, h, nc, nr) == index by {
      ChainGivesEntry(s, x, y, w, h, nc, nr);
      assert Entry(s.tables, x, y, w, h, nc, nr) == index;
    }
  }

  lemma RightIsShown(lst: seq<int>, indexed: seq<int>, s: Sprite, w: nat, h: nat, nc: nat, nr: nat)
    requires nc > 0 && nr > 0 && w < 1024 && h < 1024 && PlacesFit(nc, w) && PlacesFit(nr, h)
    requires Holds(s, lst, indexed, w, h, nc, nr) && forall v :: v in lst ==> IndexedRight(v, s.palette)
    ensures ShowsAll(s, lst, w, h, nc, nr)
  {
    forall x: nat, y: nat | x < w && y < h
      ensures Shows(s, x, y, w, h, nc, nr, PixelAt(lst, x, y, w, h))
    {
      ShowsIndexed(lst, indexed, s, x, y, w, h, nc, nr);
      PixelIndex(x, y, w, h);
      assert PixelAt(lst, x, y, w, h) in lst;
    }
  }

  lemma ShownIsRight(lst: seq<int>, indexed: seq<int>, s: Sprite, w: nat, h: nat, nc: nat, nr: nat, p: nat)
    requires nc > 0 && nr > 0 && w < 1024 && h < 1024 && PlacesFit(nc, w) && PlacesFit(nr, h)
    requires Holds(s, lst, indexed, w, h, nc, nr) && ShowsAll(s, lst, w, h, nc, nr) && p < |lst|
    ensures IndexedRight(lst[p], s.palette)
  {
    PixelOf(lst, p, w, h);
    var x: nat, y: nat := p % w, p / w;
    ShowsIndexed(lst, indexed, s, x, y, w, h, nc, nr);
  }

  /** For an image of less than 1024 pixels a side, and tile sizes that fit, the module generated for a channel shows
      every pixel in its own colour exactly if the palette of the image has no entry below its index. */
  lemma SpriteReadsBackIff(lst: seq<int>, indexed: seq<int>, s: Sprite, w: nat, h: nat, nc: nat, nr: nat)
    requires nc > 0 && nr > 0 && w < 1024 && h < 1024 && PlacesFit(nc, w) && PlacesFit(nr, h)
    requires Holds(s, lst, indexed, w, h, nc, nr) && s.palette == Palette(lst) && forall v :: v in lst ==> v >= 0
    ensures ShowsAll(s, lst, w, h, nc, nr) <==> IndicesBelowColours(Palette(lst))
  {
    ReadBackIff(lst);
    if IndicesBelowColours(Palette(lst)) {
      RightIsShown(lst, indexed, s, w, h, nc, nr);
    } else if ShowsAll(s, lst, w, h, nc, nr) {
      forall p: nat | p < |lst|
        ensures IndexedRight(lst[p], s.palette)
      {
        ShownIsRight(lst, indexed, s, w, h, nc, nr, p);
      }
      assert false;
    }
  }

  /** Element p of the list is pixel p % w of row p / w. */
  lemma PixelOf(lst: seq<int>, p: nat, w: nat, h: nat)
    requires p < |lst| == w * h
    ensures w > 0 && p % w < w && 0 <= p / w < h && PixelAt(lst, p % w, p / w, w, h) == lst[p]
  {
    assert p == p / w * w + p % w;
    LessByFactor(p / w, h, w);
  }

  /** generate_palette on the pixels of one channel.  The merged channel is determined by the list and the distance
      (MergedIsUnique).  The generated module shows every pixel in its merged colour, which is at most `dist` from its
      own, exactly if the palette of the merged channel has no entry below its index. */
  method GenerateChannel(lst: array<int>, dist: nat, w: nat, h: nat, nc: nat, nr: nat)
    returns (r: Compiled, ghost merged: seq<int>)
    requires nc > 0 && nr > 0 && w < 1024 && h < 1024 && PlacesFit(nc, w) && PlacesFit(nr, h)
    requires lst.Length == w * h && forall i :: 0 <= i < lst.Length ==> lst[i] >= 0
    modifies lst
    ensures IsMerged(merged, old(lst[..]), dist) && |merged| == w * h
    ensures r.ValueError? <==> |Palette(merged)| < 2
    ensures r.Ok? ==> r.sprite.palette == Palette(merged) && forall t :: t in r.sprite.order ==> t in r.sprite.tables
    ensures r.Ok? ==> (ShowsAll(r.sprite, merged, w, h, nc, nr) <==> IndicesBelowColours(Palette(merged)))
    ensures r.Ok? && IndicesBelowColours(Palette(merged)) ==> forall x: nat, y: nat :: x < w && y < h ==>
              ShowsNear(r.sprite, x, y, w, h, nc, nr, PixelAt(old(lst[..]), x, y, w, h), dist)
  {
    ghost var original := lst[..];
    ghost var items, gs := CombineChannels(lst, dist);
    ghost var cs := Channels(items);
    merged := lst[..];
    r := SplitSpriteTable(lst, w, h, nc, nr);
    if r.Ok? {
      MergedNotNegative(original, cs, gs, dist);
      SpriteReadsBackIff(merged, lst[..], r.sprite, w, h, nc, nr);
      if IndicesBelowColours(Palette(merged)) {
        ShowsNearAll(r.sprite, original, merged, cs, gs, dist, w, h, nc, nr);
      }
    }
  }

  lemma ShowsNearAll(s: Sprite, lst: seq<int>, merged: seq<int>, cs: seq<int>, gs: seq<Span>, dist: nat,
                     w: nat, h: nat, nc: nat, nr: nat)
    requires nc > 0 && nr > 0 && (forall t :: t in s.order ==> t in s.tables) && |lst| == w * h
    requires IsMergedBy(merged, lst, dist, cs, gs) && ShowsAll(s, merged, w, h, nc, nr)
    ensures forall x: nat, y: nat :: x < w && y < h ==>
              ShowsNear(s, x, y, w, h, nc, nr, PixelAt(lst, x, y, w, h), dist)
  {
    forall x: nat, y: nat | x < w && y < h
      ensures ShowsNear(s, x, y, w, h, nc, nr, PixelAt(lst, x, y, w, h), dist)
    {
      PixelIndex(x, y, w, h);
      MergeIsGentle(cs, dist, gs, lst[y * w + x], lst[y * w + x]);
      assert Shows(s, x, y, w, h, nc, nr, PixelAt(merged, x, y, w, h));
    }
  }

  lemma MergedNotNegative(lst: seq<int>, cs: seq<int>, gs: seq<Span>, dist: nat)
    requires Ascending(cs) && IsGrouping(cs, dist, gs) && (forall v :: v in lst <==> v in cs) && Drawn(lst, cs)
    requires forall i :: 0 <= i < |lst| ==> lst[i] >= 0
    ensures forall v :: v in MergedAll(lst, cs, gs) ==> v >= 0
  {
    forall i | 0 <= i < |lst|
      ensures MergedAll(lst, cs, gs)[i] >= 0
    {
      MergeIsGentle(cs, dist, gs, lst[i], lst[i]);
      assert Merged(cs, gs, lst[i]) in lst;
    }
  }

  /** An image of two pixels that is not read back, for all tile sizes that fit. */
  lemma TwoPixelsFail(s: Sprite, indexed: seq<int>, nc: nat, nr: nat)
    requires nc > 0 && nr > 0 && PlacesFit(nc, 2) && PlacesFit(nr, 1)
    requires s.palette == Palette([1, 0]) && Holds(s, [1, 0], indexed, 2, 1, nc, nr)
    ensures !ShowsAll(s, [1, 0], 2, 1, nc, nr)
  {
    OneBeforeZero();
    SpriteReadsBackIff([1, 0], indexed, s, 2, 1, nc, nr);
  }

  ghost predicate ShowsNear(s: Sprite, x: nat, y: nat, w: nat, h: nat, nc: nat, nr: nat, colour: int, dist: nat)
    requires nc > 0 && nr > 0 && forall t :: t in s.order ==> t in s.tables
  {
    exists c :: Shows(s, x, y, w, h, nc, nr, c) && Near(c, colour, dist)
  }
}
