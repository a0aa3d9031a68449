/** One player's side of the game: placing ships, firing at the opponent and
    the classification of shots that the two screens display. */
module Players {

  import opened Optional
  import opened Coords

  /** Ship lengths, in the order the player is asked to place them. */
  const SHIP_SIZES: seq<nat> := [5, 4, 3, 3, 2]

  /** The state of a player. `gridSize` is the size of the shared grid the
      player draws on; the display name is left out. */
  datatype Player = Player(
    gridSize: nat,
    shipCoordinates: seq<Coord>,
    firedCoordinates: seq<Coord>,
    vertical: bool,       // orientation of the next ship
    shipSizeIndex: nat,   // index in SHIP_SIZES of the ship being placed
    fired: bool)          // a shot was taken on the opponent screen shown last

  datatype Outcome = Hit | Miss

  /** A player as constructed at the start of a game. */
  function NewPlayer(gridSize: nat): (p: Player)
    ensures p.gridSize == gridSize
    ensures p.shipCoordinates == [] && p.firedCoordinates == []
    ensures p.vertical && p.shipSizeIndex == 0 && !p.fired
    ensures LayoutOk(p)
  {
    Player(gridSize, [], [], true, 0, false)
  }

  predicate AllPlaced(p: Player) {
    p.shipSizeIndex >= |SHIP_SIZES|
  }

  /** Total length of the first k ships. */
  function PlacedCells(k: nat): nat
    requires k <= |SHIP_SIZES|
  {
    if k == 0 then 0 else PlacedCells(k - 1) + SHIP_SIZES[k - 1]
  }

  /** The layout invariant: the index stays within SHIP_SIZES, no cell is
      occupied twice, and the occupied cells are exactly as many as the
      ships placed so far are long. */
  ghost predicate LayoutOk(p: Player) {
    && p.shipSizeIndex <= |SHIP_SIZES|
    && NoDuplicates(p.shipCoordinates)
    && |p.shipCoordinates| == PlacedCells(p.shipSizeIndex)
  }

  /** Length of the ship being placed; `None` is the IndexError raised once
      every ship is placed. */
  function GetShipSize(p: Player): (size: Option<nat>)
    ensures size.Some? <==> !AllPlaced(p)
    ensures size.Some? ==> size.value == SHIP_SIZES[p.shipSizeIndex] && size.value > 0
  {
    if p.shipSizeIndex < |SHIP_SIZES| then Some(SHIP_SIZES[p.shipSizeIndex]) else None
  }

  function Min(a: int, b: int): int {
    if a <= b then a else b
  }

  /** The first cell of a ship of length n anchored at (x, y): along the
      orientation axis the anchor is pulled back so that the ship ends on the
      last row (or column) at the latest. */
  function Start(p: Player, x: int, y: int, n: nat): Coord {
    if p.vertical then Coord(x, Min(y, p.gridSize - n)) else Coord(Min(x, p.gridSize - n), y)
  }

  function Cell(start: Coord, vertical: bool, i: int): Coord {
    if vertical then Coord(start.x, start.y + i) else Coord(start.x + i, start.y)
  }

  /** The n consecutive cells from `start` along the orientation axis. */
  function Segment(start: Coord, vertical: bool, n: nat): (cells: seq<Coord>)
    ensures |cells| == n
    ensures NoDuplicates(cells)
  {
    seq(n, i => Cell(start, vertical, i))
  }

  /** The cells of the ship being placed, anchored at (x, y), before the
      overlap test. */
  function ShipCells(p: Player, x: int, y: int): seq<Coord>
    requires !AllPlaced(p)
  {
    var n := GetShipSize(p).value;
    Segment(Start(p, x, y, n), p.vertical, n)
  }

  predicate Overlaps(cells: seq<Coord>, placed: seq<Coord>) {
    exists c :: c in cells && c in placed
  }

  /** The cells the ship being placed would occupy when anchored at (x, y),
      or the empty list when no ship is left or the ship would overlap one
      already placed. */
  function Candidates(p: Player, x: int, y: int): (r: seq<Coord>)
    ensures AllPlaced(p) ==> r == []
    ensures r != [] ==> !AllPlaced(p) && |r| == SHIP_SIZES[p.shipSizeIndex]
    ensures r != [] ==> forall i :: 0 <= i < |r| ==>
      r[i] == if p.vertical then Coord(x, Min(y, p.gridSize - |r|) + i)
              else Coord(Min(x, p.gridSize - |r|) + i, y)
    ensures !AllPlaced(p) ==> (r == [] <==> Overlaps(ShipCells(p, x, y), p.shipCoordinates))
    ensures NoDuplicates(r)
    ensures forall c :: c in r ==> c !in p.shipCoordinates
    ensures !AllPlaced(p) && SHIP_SIZES[p.shipSizeIndex] <= p.gridSize && InGrid(Coord(x, y), p.gridSize)
      ==> AllInGrid(r, p.gridSize)
  {
    if AllPlaced(p) then []
    else
      var cells := ShipCells(p, x, y);
      if Overlaps(cells, p.shipCoordinates) then [] else cells
  }

  /** `find_coordinates`: clamp the anchor, then walk the ship's cells and
      give up with the empty list at the first one already occupied. */
  method FindCoordinates(p: Player, x: int, y: int) returns (coordinates: seq<Coord>)
    ensures coordinates == Candidates(p, x, y)
  {
    if p.shipSizeIndex >= |SHIP_SIZES| {
      return [];
    }
    var n := GetShipSize(p).value;
    var sx, sy := x, y;
    if p.vertical {
      sy := Min(y, p.gridSize - n);
    } else {
      sx := Min(x, p.gridSize - n);
    }
    assert Coord(sx, sy) == Start(p, x, y, n);
    coordinates := [];
    var i := 0;
    while i < n
      invariant 0 <= i <= n
      invariant coordinates == Segment(Coord(sx, sy), p.vertical, i)
      invariant forall c :: c in coordinates ==> c !in p.shipCoordinates
    {
      var result := if p.vertical then Coord(sx, sy + i) else Coord(sx + i, sy);
      assert result == ShipCells(p, x, y)[i];
      if result in p.shipCoordinates {
        return [];
      }
      coordinates := coordinates + [result];
      i := i + 1;
    }
    assert coordinates == ShipCells(p, x, y);
  }

  /** On a 10 by 10 board, the first ship (length 5) anchored vertically at
      the bottom-left square is pulled up to rows 5 to 9. */
  lemma ClampAtBottomEdge()
    ensures Candidates(NewPlayer(10), 0, 9)
      == [Coord(0, 5), Coord(0, 6), Coord(0, 7), Coord(0, 8), Coord(0, 9)]
  {
    var p := NewPlayer(10);
    assert !Overlaps(ShipCells(p, 0, 9), p.shipCoordinates);
  }

  /** Result of `place_ship`: the updated player, and whether `after` (the
      next phase of the game) is invoked. */
  datatype Placement = Placement(player: Player, after: bool)

  /** `place_ship`: commit the candidate cells all or nothing. */
  function PlaceShip(p: Player, x: int, y: int): (r: Placement)
    ensures Candidates(p, x, y) == [] ==> r == Placement(p, false)
    ensures Candidates(p, x, y) != [] ==>
      r.player == p.(shipCoordinates := p.shipCoordinates + Candidates(p, x, y),
                     shipSizeIndex := p.shipSizeIndex + 1)
    ensures r.after <==> !AllPlaced(p) && AllPlaced(r.player)
    ensures p.shipSizeIndex <= r.player.shipSizeIndex <= p.shipSizeIndex + 1
  {
    var coordinatesOfShip := Candidates(p, x, y);
    if coordinatesOfShip == [] then Placement(p, false)
    else
      var q := p.(shipCoordinates := p.shipCoordinates + coordinatesOfShip,
                  shipSizeIndex := p.shipSizeIndex + 1);
      Placement(q, q.shipSizeIndex >= |SHIP_SIZES|)
  }

  /** Placing a ship keeps the layout invariant, and ships anchored on the
      board stay on the board. */
  lemma PlaceShipKeepsLayout(p: Player, x: int, y: int)
    requires LayoutOk(p)
    ensures LayoutOk(PlaceShip(p, x, y).player)
    ensures && !AllPlaced(p) && SHIP_SIZES[p.shipSizeIndex] <= p.gridSize
            && InGrid(Coord(x, y), p.gridSize) && AllInGrid(p.shipCoordinates, p.gridSize)
      ==> AllInGrid(PlaceShip(p, x, y).player.shipCoordinates, p.gridSize)
  {
    var cells := Candidates(p, x, y);
    if cells != [] {
      var q := PlaceShip(p, x, y).player;
      var placed := p.shipCoordinates;
      assert q.shipCoordinates == placed + cells;
      forall i, j | 0 <= i < j < |q.shipCoordinates|
        ensures q.shipCoordinates[i] != q.shipCoordinates[j]
      {
        if j < |placed| {
          assert q.shipCoordinates[i] == placed[i] && q.shipCoordinates[j] == placed[j];
        } else if i >= |placed| {
          assert q.shipCoordinates[i] == cells[i - |placed|] && q.shipCoordinates[j] == cells[j - |placed|];
        } else {
          assert q.shipCoordinates[i] in placed;
          assert q.shipCoordinates[j] in cells;
        }
      }
      assert |q.shipCoordinates| == PlacedCells(p.shipSizeIndex) + SHIP_SIZES[p.shipSizeIndex];
    }
  }

  /** `flip_orientation`: toggles the orientation and nothing else. */
  function FlipOrientation(p: Player): (r: Player)
    ensures r.vertical == !p.vertical
    ensures r.(vertical := p.vertical) == p
  {
    p.(vertical := !p.vertical)
  }

  /** Result of `handle_fired`: the updated player, and whether the switch to
      the next screen was scheduled. */
  datatype Shot = Shot(player: Player, scheduled: bool)

  /** `handle_fired`: at most one shot per opponent screen. There is no
      duplicate check here; the opponent screen only arms unfired cells. */
  function HandleFired(p: Player, c: Coord): (r: Shot)
    ensures p.fired ==> r == Shot(p, false)
    ensures !p.fired ==> r.scheduled && r.player.fired
    ensures !p.fired ==> r.player.firedCoordinates == p.firedCoordinates + [c]
    ensures r.player.(firedCoordinates := p.firedCoordinates, fired := p.fired) == p
  {
    if p.fired then Shot(p, false)
    else Shot(p.(firedCoordinates := p.firedCoordinates + [c], fired := true), true)
  }

  /** A shot at c hits iff c is one of the opponent's ship cells. */
  function Classify(c: Coord, opponentShips: seq<Coord>): (o: Outcome)
    ensures o == Hit <==> c in opponentShips
  {
    if c in opponentShips then Hit else Miss
  }

  /** What `display_opponent_screen` leaves behind: the player with `fired`
      cleared, the cells whose click fires a shot, and the hit/miss marks on
      cells fired at before. */
  datatype OpponentScreen = OpponentScreen(player: Player, armed: set<Coord>, marks: map<Coord, Outcome>)

  function DisplayOpponentScreen(p: Player, opponentShips: seq<Coord>): (r: OpponentScreen)
    ensures r.player == p.(fired := false)
    ensures forall c :: c in r.armed <==> InGrid(c, p.gridSize) && c !in p.firedCoordinates
    ensures forall c :: c in r.marks <==> InGrid(c, p.gridSize) && c in p.firedCoordinates
    ensures forall c :: c in r.marks ==> (r.marks[c] == Hit <==> c in opponentShips)
  {
    var cells := GridCells(p.gridSize);
    OpponentScreen(
      p.(fired := false),
      set c | c in cells && c !in p.firedCoordinates,
      map c | c in cells && c in p.firedCoordinates :: Classify(c, opponentShips))
  }

  /** The elements c of s for which `c in xs` equals `inside`, in order. */
  function Select(s: seq<Coord>, xs: seq<Coord>, inside: bool): (r: seq<Coord>)
    ensures forall c :: c in r <==> c in s && ((c in xs) == inside)
    ensures |r| <= |s|
  {
    if s == [] then []
    else (if (s[0] in xs) == inside then [s[0]] else []) + Select(s[1..], xs, inside)
  }

  /** `list.remove(c)`: drops the first occurrence of c; `None` is the
      ValueError raised when c is absent. */
  function RemoveFirst(s: seq<Coord>, c: Coord): (r: Option<seq<Coord>>)
    ensures r.None? <==> c !in s
    ensures r.Some? ==> |r.value| == |s| - 1
  {
    if s == [] then None
    else if s[0] == c then Some(s[1..])
    else match RemoveFirst(s[1..], c)
      case None => None
      case Some(t) => Some([s[0]] + t)
  }

  /** The loop of `display_player_screen` over the player's ship cells: every
      ship cell the opponent fired at is removed from the copy `missed`. */
  function Missed(ships: seq<Coord>, opponentFired: seq<Coord>, missed: seq<Coord>): Option<seq<Coord>> {
    if ships == [] then Some(missed)
    else if ships[0] in opponentFired then
      match RemoveFirst(missed, ships[0])
      case None => None
      case Some(m) => Missed(ships[1..], opponentFired, m)
    else Missed(ships[1..], opponentFired, missed)
  }

  /** The player's own board: ship cells painted as hits, and the opponent's
      shots painted as misses. */
  datatype PlayerScreen = PlayerScreen(hits: seq<Coord>, missed: seq<Coord>)

  function DisplayPlayerScreen(ships: seq<Coord>, opponentFired: seq<Coord>): Option<PlayerScreen> {
    match Missed(ships, opponentFired, opponentFired)
    case None => None
    case Some(m) => Some(PlayerScreen(Select(ships, opponentFired, true), m))
  }

  lemma {:induction false} SelectKeepsNoDuplicates(s: seq<Coord>, xs: seq<Coord>, inside: bool)
    requires NoDuplicates(s)
    ensures NoDuplicates(Select(s, xs, inside))
  {
    if s != [] {
      assert NoDuplicates(s[1..]);
      SelectKeepsNoDuplicates(s[1..], xs, inside);
      assert s[0] !in s[1..];
    }
  }

  lemma {:induction false} SelectCongruent(s: seq<Coord>, xs: seq<Coord>, ys: seq<Coord>, inside: bool)
    requires forall c :: c in s ==> (c in xs <==> c in ys)
    ensures Select(s, xs, inside) == Select(s, ys, inside)
  {
    if s != [] {
      SelectCongruent(s[1..], xs, ys, inside);
    }
  }

  lemma {:induction false} SelectNothing(s: seq<Coord>, xs: seq<Coord>)
    requires forall c :: c in s ==> c !in xs
    ensures Select(s, xs, false) == s
  {
    if s != [] {
      SelectNothing(s[1..], xs);
    }
  }

  lemma {:induction false} SelectAppend(a: seq<Coord>, b: seq<Coord>, xs: seq<Coord>, inside: bool)
    ensures Select(a + b, xs, inside) == Select(a, xs, inside) + Select(b, xs, inside)
  {
    if a != [] {
      assert (a + b)[1..] == a[1..] + b;
      SelectAppend(a[1..], b, xs, inside);
    } else {
      assert a + b == b;
    }
  }

  lemma {:induction false} SelectTwice(s: seq<Coord>, xs: seq<Coord>, ys: seq<Coord>)
    ensures Select(Select(s, xs, false), ys, false) == Select(s, xs + ys, false)
  {
    if s != [] {
      var head := if s[0] in xs then [] else [s[0]];
      var tail := Select(s[1..], xs, false);
      assert Select(s, xs, false) == head + tail;
      SelectAppend(head, tail, ys, false);
      SelectTwice(s[1..], xs, ys);
      assert Select(head, ys, false) == if s[0] in xs + ys then [] else [s[0]];
    }
  }

  /** Removing the first occurrence from a duplicate-free list removes every
      occurrence. */
  lemma {:induction false} RemoveFirstIsSelect(s: seq<Coord>, c: Coord)
    requires NoDuplicates(s) && c in s
    ensures RemoveFirst(s, c) == Some(Select(s, [c], false))
  {
    if s[0] == c {
      assert forall k :: 0 <= k < |s[1..]| ==> s[1..][k] == s[k + 1] != c;
      assert forall d :: d in s[1..] ==> d !in [c];
      SelectNothing(s[1..], [c]);
      assert Select(s, [c], false) == s[1..];
      assert RemoveFirst(s, c) == Some(s[1..]);
    } else {
      assert NoDuplicates(s[1..]);
      RemoveFirstIsSelect(s[1..], c);
    }
  }

  lemma {:induction false} MissedIsSelect(ships: seq<Coord>, fired: seq<Coord>, m: seq<Coord>)
    requires NoDuplicates(ships) && NoDuplicates(m)
    requires forall c :: c in m ==> c in fired
    requires forall c :: c in ships && c in fired ==> c in m
    ensures Missed(ships, fired, m) == Some(Select(m, ships, false))
  {
    if ships == [] {
      SelectNothing(m, ships);
    } else {
      var s, rest := ships[0], ships[1..];
      assert ships == [s] + rest;
      assert NoDuplicates(rest);
      if s in fired {
        RemoveFirstIsSelect(m, s);
        var m' := Select(m, [s], false);
        SelectKeepsNoDuplicates(m, [s], false);
        assert forall c :: c in rest ==> c != s;
        MissedIsSelect(rest, fired, m');
        SelectTwice(m, [s], rest);
      } else {
        MissedIsSelect(rest, fired, m);
        SelectCongruent(m, rest, ships, false);
      }
    }
  }

  /** With duplicate-free lists, the player screen never fails: the hits are
      the ship cells the opponent fired at, and the misses are exactly the
      opponent's shots outside the ships, in firing order. */
  lemma PlayerScreenExact(ships: seq<Coord>, opponentFired: seq<Coord>)
    requires NoDuplicates(ships) && NoDuplicates(opponentFired)
    ensures DisplayPlayerScreen(ships, opponentFired)
      == Some(PlayerScreen(Select(ships, opponentFired, true), Select(opponentFired, ships, false)))
  {
    MissedIsSelect(ships, opponentFired, opponentFired);
  }

}
