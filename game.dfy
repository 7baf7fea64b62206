/** The state engine of the exploration demo: the field buffer, the player's
    and the special tile's coordinates, special-tile placement by rejection
    sampling, the key step, and the reset that follows the overlay screen. */
module Exploration {
  import opened Field
  import opened Movement

  const CentreX: int := Width / 2
  const CentreY: int := Height / 2

  /* The pseudo-random sequence fixed by seeding is the stream rand(0),
     rand(1), ...; placement draws pairs from it, the column first. */

  /** Column drawn by the k-th pair of calls. */
  function DrawX(rand: nat -> nat, k: nat): (x: int)
    ensures 0 <= x < Width
  {
    rand(2 * k) % Width
  }

  /** Row drawn by the k-th pair of calls. */
  function DrawY(rand: nat -> nat, k: nat): (y: int)
    ensures 0 <= y < Height
  {
    rand(2 * k + 1) % Height
  }

  /** The k-th pair does not land on the player at (px, py). */
  predicate Accepted(rand: nat -> nat, k: nat, px: int, py: int) {
    !(DrawX(rand, k) == px && DrawY(rand, k) == py)
  }

  /** Some pair from the n-th on lands off the player: the sampling loop ends. */
  ghost predicate AcceptedFrom(rand: nat -> nat, n: nat, px: int, py: int) {
    exists m: nat :: n <= m && Accepted(rand, m, px, py)
  }

  /** However many pairs have been used, some later pair lands off the centre,
      where every placement of the game finds the player. */
  ghost predicate LeavesCentre(rand: nat -> nat) {
    forall n: nat :: AcceptedFrom(rand, n, CentreX, CentreY)
  }

  /** If pair m misses the player, some pair in [n, m] is the first to miss it. */
  lemma {:induction false} LeastAccepted(rand: nat -> nat, n: nat, m: nat, px: int, py: int)
    requires n <= m && Accepted(rand, m, px, py)
    ensures exists k: nat ::
      (n <= k <= m && Accepted(rand, k, px, py) && forall j :: n <= j < k ==> !Accepted(rand, j, px, py))
    decreases m - n
  {
    if !Accepted(rand, n, px, py) {
      LeastAccepted(rand, n + 1, m, px, py);
      var k: nat :| n + 1 <= k <= m && Accepted(rand, k, px, py) &&
        forall j :: n + 1 <= j < k ==> !Accepted(rand, j, px, py);
      assert forall j :: n <= j < k ==> !Accepted(rand, j, px, py);
    }
  }

  /** The pair at which the sampling loop, started at pair n with the player
      at (px, py), stops: the first pair from n on that misses the player. */
  ghost function FirstAccepted(rand: nat -> nat, n: nat, px: int, py: int): (k: nat)
    requires AcceptedFrom(rand, n, px, py)
    ensures n <= k && Accepted(rand, k, px, py)
    ensures forall j :: n <= j < k ==> !Accepted(rand, j, px, py)
  {
    var m: nat :| n <= m && Accepted(rand, m, px, py);
    LeastAccepted(rand, n, m, px, py);
    var k: nat :| n <= k <= m && Accepted(rand, k, px, py) &&
      forall j :: n <= j < k ==> !Accepted(rand, j, px, py);
    k
  }

  /** Only one pair is the first to miss the player. */
  lemma FirstAcceptedUnique(rand: nat -> nat, n: nat, k: nat, px: int, py: int)
    requires n <= k && Accepted(rand, k, px, py)
    requires forall j :: n <= j < k ==> !Accepted(rand, j, px, py)
    ensures AcceptedFrom(rand, n, px, py) && k == FirstAccepted(rand, n, px, py)
  {
    assert AcceptedFrom(rand, n, px, py);
    var f := FirstAccepted(rand, n, px, py);
  }

  /** The do-while loop of the placement, from pair `from` on: draw a column
      and a row until they differ from the player's (px, py). Returns the
      cell and the index of the next unused pair. */
  method Sample(rand: nat -> nat, from: nat, px: int, py: int) returns (x: int, y: int, next: nat)
    requires AcceptedFrom(rand, from, px, py)
    ensures next == FirstAccepted(rand, from, px, py) + 1
    ensures x == DrawX(rand, next - 1) && y == DrawY(rand, next - 1)
    ensures InBounds(x, y) && !(x == px && y == py)
  {
    ghost var m := FirstAccepted(rand, from, px, py);
    var k := from;
    x := DrawX(rand, k);
    y := DrawY(rand, k);
    while x == px && y == py
      invariant from <= k <= m
      invariant x == DrawX(rand, k) && y == DrawY(rand, k)
      invariant forall j :: from <= j < k ==> !Accepted(rand, j, px, py)
      decreases m - k
    {
      k := k + 1;
      x := DrawX(rand, k);
      y := DrawY(rand, k);
    }
    FirstAcceptedUnique(rand, from, k, px, py);
    next := k + 1;
  }

  /** Where the event loop ends: whether Escape stopped it, how many keys it
      read, and the player, the special tile and the draw counter then. */
  datatype RunEnd = RunEnd(quit: bool, used: nat, player: Pos, special: Pos, drawn: nat)

  /** The event loop as a function of the keys from index i on, starting
      with the player at p, the special tile at s and d pairs drawn. Escape
      read while exploring ends it; a step onto the special tile consumes the
      next key, whatever it is, as the overlay's dismissal and then recentres
      the player and places a new tile at the first pair that misses the
      centre. */
  ghost function Play(rand: nat -> nat, keys: seq<Key>, i: nat, p: Pos, s: Pos, d: nat): RunEnd
    requires i <= |keys| && LeavesCentre(rand)
    decreases |keys| - i
  {
    if i == |keys| then RunEnd(false, i, p, s, d)
    else if keys[i] == Esc then RunEnd(true, i + 1, p, s, d)
    else
      var p' := Move(p, keys[i]);
      if p' != s then Play(rand, keys, i + 1, p', s, d)
      else if i + 1 == |keys| then RunEnd(false, |keys|, p', s, d)
      else
        assert AcceptedFrom(rand, d, CentreX, CentreY);
        var k := FirstAccepted(rand, d, CentreX, CentreY);
        Play(rand, keys, i + 2, Pos(CentreX, CentreY), Pos(DrawX(rand, k), DrawY(rand, k)), k + 1)
  }

  /** What the event loop promises for every run of keys: it reads keys
      in order and stops early only right after an Escape; the player and the
      special tile stay in the field; they coincide at the end only when the
      keys ran out while the overlay was shown; the draw counter never goes
      back. */
  lemma {:induction false} PlayKeepsInvariant(rand: nat -> nat, keys: seq<Key>, i: nat, p: Pos, s: Pos, d: nat)
    requires i <= |keys| && LeavesCentre(rand)
    requires InBounds(p.x, p.y) && InBounds(s.x, s.y) && p != s
    ensures var o := Play(rand, keys, i, p, s, d);
      i <= o.used <= |keys| &&
      (o.quit ==> i < o.used && keys[o.used - 1] == Esc) &&
      (!o.quit ==> o.used == |keys|) &&
      InBounds(o.player.x, o.player.y) && InBounds(o.special.x, o.special.y) &&
      (o.player == o.special ==> !o.quit) &&
      d <= o.drawn
    decreases |keys| - i
  {
    if i < |keys| && keys[i] != Esc {
      var p' := Move(p, keys[i]);
      if p' != s {
        PlayKeepsInvariant(rand, keys, i + 1, p', s, d);
      } else if i + 1 < |keys| {
        assert AcceptedFrom(rand, d, CentreX, CentreY);
        var k := FirstAccepted(rand, d, CentreX, CentreY);
        PlayKeepsInvariant(rand, keys, i + 2, Pos(CentreX, CentreY), Pos(DrawX(rand, k), DrawY(rand, k)), k + 1);
      }
    }
  }

  class Game {
    /** The HEIGHT x WIDTH character buffer, indexed [row, column]. */
    const field: array2<char>
    /** The pseudo-random stream fixed by seeding. */
    const rand: nat -> nat
    /** Number of pairs of draws consumed so far. */
    var drawn: nat
    var playerX: int
    var playerY: int
    var specialX: int
    var specialY: int

    /** The field buffer as a value. */
    ghost function Grid(): Grid
      reads field
    {
      seq(field.Length0, y requires 0 <= y < field.Length0 reads field =>
        seq(field.Length1, x requires 0 <= x < field.Length1 reads field => field[y, x]))
    }

    /** Grid() holds the buffer's characters cell by cell. */
    lemma GridCells()
      requires Dimensions()
      ensures Shaped(Grid())
      ensures forall y, x :: 0 <= y < Height && 0 <= x < Width ==> Grid()[y][x] == field[y, x]
    {
    }

    ghost predicate Dimensions()
    {
      field.Length0 == Height && field.Length1 == Width
    }

    /** Invariant held after every step: the player is inside the field, and
        exactly one cell holds '#', the one at (specialX, specialY). */
    ghost predicate Consistent()
      reads this, field
    {
      Dimensions() && InBounds(playerX, playerY) &&
      OnlySpecialAt(Grid(), specialX, specialY) && LeavesCentre(rand)
    }

    /** Consistent, and the player is not on the special tile (no overlay due). */
    ghost predicate Exploring()
      reads this, field
    {
      Consistent() && !(playerX == specialX && playerY == specialY)
    }

    /** The special tile was placed at the first pair of draws, from pair
        `from` on, that misses the player; `drawn` is just past that pair. */
    ghost predicate PlacedByFirstAccepted(from: nat)
      reads this
    {
      AcceptedFrom(rand, from, playerX, playerY) &&
      drawn == FirstAccepted(rand, from, playerX, playerY) + 1 &&
      specialX == DrawX(rand, drawn - 1) && specialY == DrawY(rand, drawn - 1)
    }

    /** Start-up: fill the field with '.', put the player at the centre and
        place the first special tile. */
    constructor Init(rand: nat -> nat)
      requires LeavesCentre(rand)
      ensures fresh(field) && this.rand == rand
      ensures Exploring()
      ensures playerX == CentreX && playerY == CentreY
      ensures Grid() == Placed(Blank(), specialX, specialY)
      ensures PlacedByFirstAccepted(0)
    {
      var f := new char[Height, Width];
      for y := 0 to Height
        invariant forall j, i :: 0 <= j < y && 0 <= i < Width ==> f[j, i] == Empty
      {
        for x := 0 to Width
          invariant forall j, i :: 0 <= j < y && 0 <= i < Width ==> f[j, i] == Empty
          invariant forall i :: 0 <= i < x ==> f[y, i] == Empty
        {
          f[y, x] := Empty;
        }
      }
      field := f;
      this.rand := rand;
      drawn := 0;
      playerX, playerY := CentreX, CentreY;
      specialX, specialY := 0, 0;
      new;
      SameCells(Grid(), Blank());
      assert AcceptedFrom(rand, drawn, playerX, playerY);
      PlaceSpecial();
      PlacedOnBlank(specialX, specialY);
    }

    /** Rejection sampling: draw column and row until the cell is not the
        player's, then write '#' there. */
    method PlaceSpecial()
      requires Dimensions()
      requires AcceptedFrom(rand, drawn, playerX, playerY)
      modifies this`drawn, this`specialX, this`specialY, field
      ensures PlacedByFirstAccepted(old(drawn))
      ensures InBounds(specialX, specialY) && !(specialX == playerX && specialY == playerY)
      ensures Grid() == Placed(old(Grid()), specialX, specialY)
    {
      specialX, specialY, drawn := Sample(rand, drawn, playerX, playerY);
      assert PlacedByFirstAccepted(old(drawn));
      WriteSpecial();
    }

    /** Writes '#' into the buffer at the special tile's coordinates. */
    method WriteSpecial()
      requires Dimensions() && InBounds(specialX, specialY)
      modifies field
      ensures Grid() == Placed(old(Grid()), specialX, specialY)
    {
      GridCells();
      ghost var before := Grid();
      field[specialY, specialX] := Special;
      GridCells();
      SameCells(Grid(), Placed(before, specialX, specialY));
    }

    /** One key of the event loop: Escape quits at once; otherwise the switch
        moves the player and `hit` reports that it now stands on the special
        tile, which shows the overlay. */
    method Step(key: Key) returns (quit: bool, hit: bool)
      requires Exploring()
      modifies this`playerX, this`playerY
      ensures quit <==> key == Esc
      ensures Pos(playerX, playerY) == Move(Pos(old(playerX), old(playerY)), key)
      ensures unchanged(field) && specialX == old(specialX) && specialY == old(specialY)
      ensures hit <==> !quit && playerX == specialX && playerY == specialY
      ensures Consistent()
      ensures !hit ==> Exploring()
    {
      quit, hit := false, false;
      match key {
        case Up => if playerY > 0 { playerY := playerY - 1; }
        case Down => if playerY < Height - 1 { playerY := playerY + 1; }
        case Left => if playerX > 0 { playerX := playerX - 1; }
        case Right => if playerX < Width - 1 { playerX := playerX + 1; }
        case Esc => quit := true; return;
        case Other =>
      }
      hit := playerX == specialX && playerY == specialY;
    }

    /** The sweep after the overlay: every '#' cell becomes '.', every other
        cell keeps its character. */
    method SweepSpecial()
      requires Dimensions()
      modifies field
      ensures Grid() == Swept(old(Grid()))
    {
      for y := 0 to Height
        invariant forall j, i :: 0 <= j < Height && 0 <= i < Width ==>
          field[j, i] == if j < y then Cleared(old(field[j, i])) else old(field[j, i])
      {
        for x := 0 to Width
          invariant forall j, i :: 0 <= j < Height && 0 <= i < Width ==>
            field[j, i] == if j < y || (j == y && i < x) then Cleared(old(field[j, i])) else old(field[j, i])
        {
          if field[y, x] == Special {
            field[y, x] := Empty;
          }
        }
      }
      SameCells(Grid(), Swept(old(Grid())));
    }

    /** Leaving the overlay: recentre the player, sweep away the old special
        tile and place a fresh one. */
    method ResetAfterOverlay()
      requires Consistent()
      modifies this`drawn, this`playerX, this`playerY, this`specialX, this`specialY, field
      ensures Exploring()
      ensures playerX == CentreX && playerY == CentreY
      ensures !(specialX == CentreX && specialY == CentreY)
      ensures Grid() == Placed(Blank(), specialX, specialY)
      ensures PlacedByFirstAccepted(old(drawn))
    {
      playerX, playerY := CentreX, CentreY;
      SweptOnlySpecialIsBlank(Grid(), specialX, specialY);
      SweepSpecial();
      assert AcceptedFrom(rand, drawn, playerX, playerY);
      PlaceSpecial();
      PlacedOnBlank(specialX, specialY);
    }

    /** One pass of the event loop, reading keys[i]: Escape quits; otherwise
        the player moves, and if it now stands on the special tile the next
        key, whatever it is, dismisses the overlay and the field is reset.
        `stop` reports that the loop ends here: on Escape, or because the keys
        ran out while the overlay was shown. */
    method Turn(keys: seq<Key>, i: nat) returns (stop: bool, quit: bool, next: nat)
      requires i < |keys| && Exploring()
      modifies this`drawn, this`playerX, this`playerY, this`specialX, this`specialY, field
      ensures i < next <= |keys| && Consistent()
      ensures quit ==> stop
      ensures !stop || quit ==> Exploring()
      ensures stop && !quit ==> next == |keys| && playerX == specialX && playerY == specialY
      ensures var before := Play(rand, keys, i, Pos(old(playerX), old(playerY)), Pos(old(specialX), old(specialY)), old(drawn));
        before == if stop then RunEnd(quit, next, Pos(playerX, playerY), Pos(specialX, specialY), drawn)
                  else Play(rand, keys, next, Pos(playerX, playerY), Pos(specialX, specialY), drawn)
    {
      ghost var p0, s0, d0 := Pos(playerX, playerY), Pos(specialX, specialY), drawn;
      var hit;
      quit, hit := Step(keys[i]);
      next := i + 1;
      stop := quit;
      if quit || !hit {
        return;
      }
      if next == |keys| {
        stop := true;
        return;
      }
      next := next + 1;
      assert AcceptedFrom(rand, d0, CentreX, CentreY);
      ghost var k := FirstAccepted(rand, d0, CentreX, CentreY);
      ResetAfterOverlay();
      assert drawn == k + 1;
      assert Pos(playerX, playerY) == Pos(CentreX, CentreY) && Pos(specialX, specialY) == Pos(DrawX(rand, k), DrawY(rand, k));
    }

    /** The event loop over a finite run of keys. After a hit the next key,
        whatever it is, dismisses the overlay. The loop ends on Escape, or when
        the keys run out (possibly with the overlay still shown). */
    method Run(keys: seq<Key>) returns (quit: bool, used: nat)
      requires Exploring()
      modifies this, field
      ensures var o := Play(rand, keys, 0, Pos(old(playerX), old(playerY)), Pos(old(specialX), old(specialY)), old(drawn));
        quit == o.quit && used == o.used && Pos(playerX, playerY) == o.player &&
        Pos(specialX, specialY) == o.special && drawn == o.drawn
      ensures Consistent() && Grid() == Placed(Blank(), specialX, specialY)
      ensures quit || !(playerX == specialX && playerY == specialY) ==> Exploring()
    {
      ghost var goal := Play(rand, keys, 0, Pos(playerX, playerY), Pos(specialX, specialY), drawn);
      quit, used := false, 0;
      var stop := false;
      while !stop && used < |keys|
        invariant used <= |keys| && Consistent() && (quit ==> stop)
        invariant !stop || quit ==> Exploring()
        invariant !stop ==> Play(rand, keys, used, Pos(playerX, playerY), Pos(specialX, specialY), drawn) == goal
        invariant stop ==> goal == RunEnd(quit, used, Pos(playerX, playerY), Pos(specialX, specialY), drawn)
        decreases |keys| - used
      {
        stop, quit, used := Turn(keys, used);
      }
      OnlySpecialAtIsPlacedOnBlank(Grid(), specialX, specialY);
    }
  }
}
