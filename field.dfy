/** The playing field as a value: HEIGHT rows of WIDTH characters, indexed
    g[y][x]. Every cell starts as '.', and the only other character the game
    ever writes is '#', the special tile. */
module Field {

  const Width: int := 80
  const Height: int := 25

  /** The glyph every cell is initialised with. */
  const Empty: char := '.'
  /** The glyph of the special tile. */
  const Special: char := '#'

  type Grid = seq<seq<char>>

  predicate InBounds(x: int, y: int) {
    0 <= x < Width && 0 <= y < Height
  }

  /** g has the dimensions of the field buffer. */
  predicate Shaped(g: Grid) {
    |g| == Height && forall y :: 0 <= y < |g| ==> |g[y]| == Width
  }

  /** Every cell holds one of the two glyphs the game uses. */
  predicate OnlyTiles(g: Grid) {
    forall y, x :: 0 <= y < |g| && 0 <= x < |g[y]| ==> g[y][x] == Empty || g[y][x] == Special
  }

  /** The game's invariant: exactly the cell (x, y) holds the special tile
      and every other cell is empty. */
  predicate OnlySpecialAt(g: Grid, x: int, y: int) {
    Shaped(g) && InBounds(x, y) &&
    forall j, i :: 0 <= j < Height && 0 <= i < Width ==>
      g[j][i] == (if i == x && j == y then Special else Empty)
  }

  /** The freshly initialised field. */
  function Blank(): (g: Grid)
    ensures Shaped(g)
    ensures forall y, x :: 0 <= y < Height && 0 <= x < Width ==> g[y][x] == Empty
  {
    seq(Height, _ => seq(Width, _ => Empty))
  }

  /** The reset sweep on one cell. */
  function Cleared(c: char): (r: char)
    ensures r != Special
    ensures r == Empty || r == c
    ensures c != Special ==> r == c
  {
    if c == Special then Empty else c
  }

  /** The reset sweep over the whole field: each special tile becomes empty,
      and nothing else changes. */
  function Swept(g: Grid): (r: Grid)
    ensures |r| == |g| && forall y :: 0 <= y < |g| ==> |r[y]| == |g[y]|
    ensures forall y, x :: 0 <= y < |g| && 0 <= x < |g[y]| ==>
      r[y][x] != Special && (g[y][x] != Special ==> r[y][x] == g[y][x])
    ensures forall y, x :: 0 <= y < |g| && 0 <= x < |g[y]| && g[y][x] == Special ==> r[y][x] == Empty
  {
    seq(|g|, y requires 0 <= y < |g| => seq(|g[y]|, x requires 0 <= x < |g[y]| => Cleared(g[y][x])))
  }

  /** The field after the special tile is written at (x, y). */
  function Placed(g: Grid, x: int, y: int): (r: Grid)
    requires Shaped(g) && InBounds(x, y)
    ensures Shaped(r) && r[y][x] == Special
    ensures forall j, i :: 0 <= j < Height && 0 <= i < Width && !(i == x && j == y) ==> r[j][i] == g[j][i]
  {
    g[y := g[y][x := Special]]
  }

  /** Number of cells of one row that hold c. */
  function RowCount(row: seq<char>, c: char): nat {
    if row == [] then 0 else (if row[0] == c then 1 else 0) + RowCount(row[1..], c)
  }

  /** Number of cells of the field that hold c. */
  function Count(g: Grid, c: char): nat {
    if g == [] then 0 else RowCount(g[0], c) + Count(g[1..], c)
  }

  /** Two grids with the same shape and the same cells are equal. */
  lemma SameCells(g: Grid, h: Grid)
    requires |g| == |h| && forall y :: 0 <= y < |g| ==> |g[y]| == |h[y]|
    requires forall y, x :: 0 <= y < |g| && 0 <= x < |g[y]| ==> g[y][x] == h[y][x]
    ensures g == h
  {
    forall y | 0 <= y < |g| ensures g[y] == h[y] {
      assert g[y] == h[y];
    }
  }

  lemma {:induction false} RowCountNone(row: seq<char>, c: char)
    requires forall i :: 0 <= i < |row| ==> row[i] != c
    ensures RowCount(row, c) == 0
  {
    if row != [] {
      RowCountNone(row[1..], c);
    }
  }

  lemma {:induction false} RowCountSingle(row: seq<char>, x: int, c: char)
    requires 0 <= x < |row| && row[x] == c
    requires forall i :: 0 <= i < |row| && i != x ==> row[i] != c
    ensures RowCount(row, c) == 1
  {
    if x == 0 {
      RowCountNone(row[1..], c);
    } else {
      RowCountSingle(row[1..], x - 1, c);
    }
  }

  /** A grid none of whose cells holds c counts no c. */
  lemma {:induction false} CountNone(g: Grid, c: char)
    requires forall y, x :: 0 <= y < |g| && 0 <= x < |g[y]| ==> g[y][x] != c
    ensures Count(g, c) == 0
  {
    if g != [] {
      RowCountNone(g[0], c);
      CountNone(g[1..], c);
    }
  }

  /** A grid in which only the cell (x, y) holds c counts exactly one c. */
  lemma {:induction false} CountSingle(g: Grid, x: int, y: int, c: char)
    requires 0 <= y < |g| && 0 <= x < |g[y]| && g[y][x] == c
    requires forall j, i :: 0 <= j < |g| && 0 <= i < |g[j]| && !(i == x && j == y) ==> g[j][i] != c
    ensures Count(g, c) == 1
  {
    if y == 0 {
      RowCountSingle(g[0], x, c);
      CountNone(g[1..], c);
    } else {
      RowCountNone(g[0], c);
      CountSingle(g[1..], x, y - 1, c);
    }
  }

  /** Under the game's invariant the field holds exactly one special tile. */
  lemma OnlySpecialAtCountsOne(g: Grid, x: int, y: int)
    requires OnlySpecialAt(g, x, y)
    ensures Count(g, Special) == 1
    ensures OnlyTiles(g)
  {
    CountSingle(g, x, y, Special);
  }

  /** The special tile's position is determined by the field. */
  lemma OnlySpecialAtUnique(g: Grid, x: int, y: int, x': int, y': int)
    requires OnlySpecialAt(g, x, y) && OnlySpecialAt(g, x', y')
    ensures x == x' && y == y'
  {
    assert g[y][x] == Special;
  }

  /** The initialised field holds no special tile. */
  lemma BlankHasNoSpecial()
    ensures Count(Blank(), Special) == 0
  {
    CountNone(Blank(), Special);
  }

  /** After the sweep no special tile remains. */
  lemma SweptHasNoSpecial(g: Grid)
    ensures Count(Swept(g), Special) == 0
  {
    CountNone(Swept(g), Special);
  }

  /** Under the game's invariant the sweep restores the initialised field. */
  lemma SweptOnlySpecialIsBlank(g: Grid, x: int, y: int)
    requires OnlySpecialAt(g, x, y)
    ensures Swept(g) == Blank()
  {
    SameCells(Swept(g), Blank());
  }

  /** A field that satisfies the game's invariant is the initialised field
      with the special tile written at (x, y). */
  lemma OnlySpecialAtIsPlacedOnBlank(g: Grid, x: int, y: int)
    requires OnlySpecialAt(g, x, y)
    ensures g == Placed(Blank(), x, y)
  {
    SameCells(g, Placed(Blank(), x, y));
  }

  /** Placing the special tile on a field without one establishes the
      game's invariant at that cell. */
  lemma PlacedOnBlank(x: int, y: int)
    requires InBounds(x, y)
    ensures OnlySpecialAt(Placed(Blank(), x, y), x, y)
    ensures Count(Placed(Blank(), x, y), Special) == 1
  {
    OnlySpecialAtCountsOne(Placed(Blank(), x, y), x, y);
  }
}
