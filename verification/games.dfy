/** The match: placement by player one, then player two, then strictly
    alternating turns until one fleet has been fired at in every cell. Each
    screen change the game delays with a timer is the explicit `Advance`
    event here. */
module Games {

  import opened Coords
  import opened Players
  import opened Optional
  import Grids

  const GRID_SIZE: nat := 10

  datatype Side = One | Two

  function Opponent(s: Side): Side {
    if s == One then Two else One
  }

  /** Where the match stands.
      - Placing(placer): `placer` is placing ships.
      - Viewing(viewer): `viewer` sees their own board; a switch to their
        opponent screen is pending.
      - Aiming(attacker, armed): `attacker` sees the opponent screen, where a
        click on a cell of `armed` fires; once a shot is taken (the attacker's
        `fired` flag) a switch to the defender's turn is pending.
      - Won(winner): the match is decided; the players are asked whether to
        start a new game.
      - Closed: the application was closed. */
  datatype Phase =
    | Placing(placer: Side)
    | Viewing(viewer: Side)
    | Aiming(attacker: Side, armed: set<Coord>)
    | Won(winner: Side)
    | Closed

  datatype Game = Game(one: Player, two: Player, phase: Phase)

  /** The inputs: clicks on a square, the pending timer firing, and the
      answer to the new-game question. */
  datatype Event =
    | LeftClick(cell: Coord)
    | RightClick(cell: Coord)
    | Advance
    | Answer(newGame: bool)

  function PlayerOf(g: Game, s: Side): Player {
    if s == One then g.one else g.two
  }

  function WithPlayer(g: Game, s: Side, p: Player): (r: Game)
    ensures PlayerOf(r, s) == p && PlayerOf(r, Opponent(s)) == PlayerOf(g, Opponent(s))
    ensures r.phase == g.phase
  {
    if s == One then g.(one := p) else g.(two := p)
  }

  /** The defender has lost once the attacker has fired at every one of the
      defender's ship cells. */
  predicate Defeated(ships: seq<Coord>, fired: seq<Coord>) {
    forall c :: c in ships ==> c in fired
  }

  /** The game-over loop of `show_player_screen`: stop at the first ship cell
      the opponent has not fired at. */
  method IsGameOver(ships: seq<Coord>, fired: seq<Coord>) returns (gameOver: bool)
    ensures gameOver <==> Defeated(ships, fired)
    ensures ships == [] ==> gameOver
  {
    gameOver := true;
    var i := 0;
    while i < |ships|
      invariant 0 <= i <= |ships|
      invariant forall k :: 0 <= k < i ==> ships[k] in fired
    {
      if ships[i] !in fired {
        gameOver := false;
        break;
      }
      i := i + 1;
    }
  }

  ghost predicate PlayerOk(p: Player) {
    && p.gridSize == GRID_SIZE
    && LayoutOk(p)
    && AllInGrid(p.shipCoordinates, GRID_SIZE)
    && NoDuplicates(p.firedCoordinates)
    && AllInGrid(p.firedCoordinates, GRID_SIZE)
  }

  predicate BothPlaced(g: Game) {
    g.one.shipSizeIndex == |SHIP_SIZES| && g.two.shipSizeIndex == |SHIP_SIZES|
  }

  /** Before the first turn nobody has fired; player one places first. */
  predicate PlacingOk(g: Game, placer: Side) {
    && g.one.firedCoordinates == [] && g.two.firedCoordinates == []
    && if placer == One then g.one.shipSizeIndex < |SHIP_SIZES| && g.two.shipSizeIndex == 0
       else g.one.shipSizeIndex == |SHIP_SIZES| && g.two.shipSizeIndex < |SHIP_SIZES|
  }

  /** Armed cells are on the board and, until the shot is taken, are cells the
      attacker has not fired at. */
  predicate ArmedOk(attacker: Player, armed: set<Coord>) {
    && (forall c :: c in armed ==> InGrid(c, GRID_SIZE))
    && (!attacker.fired ==> forall c :: c in armed ==> c !in attacker.firedCoordinates)
  }

  /** The invariant every reachable state keeps. */
  ghost predicate Inv(g: Game) {
    && PlayerOk(g.one) && PlayerOk(g.two)
    && match g.phase
       case Placing(placer) => PlacingOk(g, placer)
       case Viewing(_) => BothPlaced(g)
       case Aiming(attacker, armed) => BothPlaced(g) && ArmedOk(PlayerOf(g, attacker), armed)
       case Won(winner) =>
         BothPlaced(g) && Defeated(PlayerOf(g, Opponent(winner)).shipCoordinates, PlayerOf(g, winner).firedCoordinates)
       case Closed => true
  }

  /** `new_game`: two fresh players, player one placing first. */
  function NewGame(): (g: Game)
    ensures g.phase == Placing(One)
    ensures g.one == NewPlayer(GRID_SIZE) && g.two == NewPlayer(GRID_SIZE)
    ensures Inv(g)
  {
    Game(NewPlayer(GRID_SIZE), NewPlayer(GRID_SIZE), Placing(One))
  }

  /** `show_player_screen(current, other)`: `current` is the defender. */
  function ShowPlayerScreen(g: Game, current: Side): Game {
    var defender := PlayerOf(g, current);
    var attacker := PlayerOf(g, Opponent(current));
    if Defeated(defender.shipCoordinates, attacker.firedCoordinates) then g.(phase := Won(Opponent(current)))
    else g.(phase := Viewing(current))
  }

  /** `show_opponent_screen(current, other)`: `current` gets to fire. */
  function ShowOpponentScreen(g: Game, current: Side): Game {
    var screen := DisplayOpponentScreen(PlayerOf(g, current), PlayerOf(g, Opponent(current)).shipCoordinates);
    WithPlayer(g, current, screen.player).(phase := Aiming(current, screen.armed))
  }

  function PlacingStep(g: Game, placer: Side, e: Event): Game {
    match e
    case LeftClick(c) =>
      if !InGrid(c, GRID_SIZE) then g
      else
        var placed := PlaceShip(PlayerOf(g, placer), c.x, c.y);
        var g' := WithPlayer(g, placer, placed.player);
        if !placed.after then g'
        else if placer == One then g'.(phase := Placing(Two))
        else ShowPlayerScreen(g', One)
    case RightClick(c) =>
      if !InGrid(c, GRID_SIZE) then g
      else WithPlayer(g, placer, FlipOrientation(PlayerOf(g, placer)))
    case _ => g
  }

  function AimingStep(g: Game, attacker: Side, armed: set<Coord>, e: Event): Game {
    match e
    case LeftClick(c) =>
      if c !in armed then g
      else WithPlayer(g, attacker, HandleFired(PlayerOf(g, attacker), c).player)
    case Advance =>
      if PlayerOf(g, attacker).fired then ShowPlayerScreen(g, Opponent(attacker)) else g
    case _ => g
  }

  /** One input applied to the match. */
  function Step(g: Game, e: Event): Game {
    match g.phase
    case Placing(placer) => PlacingStep(g, placer, e)
    case Viewing(viewer) => if e.Advance? then ShowOpponentScreen(g, viewer) else g
    case Aiming(attacker, armed) => AimingStep(g, attacker, armed, e)
    case Won(_) =>
      if !e.Answer? then g
      else if e.newGame then NewGame()
      else g.(phase := Closed)
    case Closed => g
  }

  /** A run of inputs from a given state. */
  function Run(g: Game, es: seq<Event>): Game
    decreases |es|
  {
    if es == [] then g else Run(Step(g, es[0]), es[1..])
  }

  lemma FullLayoutNotEmpty(p: Player)
    requires LayoutOk(p) && AllPlaced(p)
    ensures p.shipCoordinates != []
  {
    assert PlacedCells(|SHIP_SIZES|) == 17;
  }

  lemma PlacingStepKeepsInv(g: Game, placer: Side, e: Event)
    requires Inv(g) && g.phase == Placing(placer)
    ensures Inv(PlacingStep(g, placer, e))
  {
    var p := PlayerOf(g, placer);
    match e
    case LeftClick(c) =>
      if InGrid(c, GRID_SIZE) {
        PlaceShipKeepsLayout(p, c.x, c.y);
        var placed := PlaceShip(p, c.x, c.y);
        var g' := WithPlayer(g, placer, placed.player);
        assert PlayerOk(PlayerOf(g', placer));
        if placed.after && placer == Two {
          FullLayoutNotEmpty(g'.one);
        }
      }
    case RightClick(c) =>
    case Advance =>
    case Answer(_) =>
  }

  lemma AimingStepKeepsInv(g: Game, attacker: Side, armed: set<Coord>, e: Event)
    requires Inv(g) && g.phase == Aiming(attacker, armed)
    ensures Inv(AimingStep(g, attacker, armed, e))
  {
    var p := PlayerOf(g, attacker);
    match e
    case LeftClick(c) =>
      if c in armed && !p.fired {
        var q := HandleFired(p, c).player;
        assert q.firedCoordinates == p.firedCoordinates + [c];
        assert c !in p.firedCoordinates;
        assert NoDuplicates(q.firedCoordinates);
        assert PlayerOk(q);
      }
    case RightClick(_) =>
    case Advance =>
    case Answer(_) =>
  }

  /** Every input keeps the invariant. */
  lemma StepKeepsInv(g: Game, e: Event)
    requires Inv(g)
    ensures Inv(Step(g, e))
  {
    match g.phase
    case Placing(placer) => PlacingStepKeepsInv(g, placer, e);
    case Viewing(viewer) =>
    case Aiming(attacker, armed) => AimingStepKeepsInv(g, attacker, armed, e);
    case Won(_) =>
    case Closed =>
  }

  lemma {:induction false} RunKeepsInv(g: Game, es: seq<Event>)
    requires Inv(g)
    ensures Inv(Run(g, es))
    decreases |es|
  {
    if es != [] {
      StepKeepsInv(g, es[0]);
      RunKeepsInv(Step(g, es[0]), es[1..]);
    }
  }

  /** In every state reachable from a new game, the layouts are well formed
      and on the board, and no player has fired twice at the same cell. */
  lemma Reachable(es: seq<Event>)
    ensures var g := Run(NewGame(), es);
      && LayoutOk(g.one) && LayoutOk(g.two)
      && AllInGrid(g.one.shipCoordinates, GRID_SIZE) && AllInGrid(g.two.shipCoordinates, GRID_SIZE)
      && NoDuplicates(g.one.firedCoordinates) && NoDuplicates(g.two.firedCoordinates)
  {
    RunKeepsInv(NewGame(), es);
  }

  /** Placement order: player one until all of their ships are placed, then
      player two, then player one's first turn, which cannot be game over. */
  lemma PlacementOrder(g: Game, e: Event)
    requires Inv(g) && g.phase.Placing?
    ensures g.phase == Placing(One) ==> Step(g, e).phase in {Placing(One), Placing(Two)}
    ensures g.phase == Placing(Two) ==> Step(g, e).phase in {Placing(Two), Viewing(One)}
    ensures Step(g, e).phase != g.phase ==>
      && e.LeftClick?
      && PlayerOf(g, g.phase.placer).shipSizeIndex + 1 == |SHIP_SIZES|
      && PlayerOf(Step(g, e), g.phase.placer).shipSizeIndex == |SHIP_SIZES|
  {
    if e.LeftClick? && InGrid(e.cell, GRID_SIZE) && g.phase == Placing(Two) {
      var placed := PlaceShip(g.two, e.cell.x, e.cell.y);
      if placed.after {
        FullLayoutNotEmpty(g.one);
        assert g.one.shipCoordinates[0] !in g.two.firedCoordinates;
      }
    }
  }

  /** After a shot, the pending switch goes to the defender's turn whether the
      shot hit or missed, unless the defender has lost, and then the shooter
      is the winner. The defender's pending switch in turn hands them the
      opponent screen with `fired` cleared. */
  lemma TurnsAlternate(g: Game)
    requires Inv(g) && g.phase.Aiming? && PlayerOf(g, g.phase.attacker).fired
    ensures var a := g.phase.attacker;
      Step(g, Advance).phase
        == if Defeated(PlayerOf(g, Opponent(a)).shipCoordinates, PlayerOf(g, a).firedCoordinates)
           then Won(a) else Viewing(Opponent(a))
    ensures var d := Opponent(g.phase.attacker);
      var g' := Step(g, Advance);
      g'.phase == Viewing(d) ==>
        && Step(g', Advance).phase.Aiming?
        && Step(g', Advance).phase.attacker == d
        && !PlayerOf(Step(g', Advance), d).fired
  {
  }

  /** No other input ends a turn: the opponent screen is left only by the
      switch that a taken shot scheduled, and the player's own board only
      by its pending switch to the opponent screen of the same player. */
  lemma NoOtherWayOut(g: Game, e: Event)
    requires Inv(g)
    ensures g.phase.Aiming? ==>
      && (!Step(g, e).phase.Aiming? ==> e == Advance && PlayerOf(g, g.phase.attacker).fired)
      && (Step(g, e).phase.Aiming? ==> Step(g, e).phase == g.phase)
    ensures g.phase.Viewing? ==>
      || Step(g, e).phase == g.phase
      || (Step(g, e).phase.Aiming? && Step(g, e).phase.attacker == g.phase.viewer)
  {
  }

  /** The only way to win: the winner has just taken a shot, and every ship
      cell of the loser is among the winner's shots. */
  lemma WinnerJustFired(g: Game, e: Event)
    requires Inv(g) && !g.phase.Won?
    requires Step(g, e).phase.Won?
    ensures var w := Step(g, e).phase.winner;
      && g.phase.Aiming? && g.phase.attacker == w
      && e == Advance && PlayerOf(g, w).fired
      && Defeated(PlayerOf(g, Opponent(w)).shipCoordinates, PlayerOf(g, w).firedCoordinates)
  {
    if g.phase.Placing? {
      PlacementOrder(g, e);
    }
  }

  /** On the opponent screen, the attacker gains at most one shot, at a cell
      not fired at before, and only while no shot was taken yet; the defender
      is untouched. */
  lemma OneShotPerTurn(g: Game, e: Event)
    requires Inv(g) && g.phase.Aiming?
    ensures var a := g.phase.attacker;
      var before := PlayerOf(g, a).firedCoordinates;
      var after := PlayerOf(Step(g, e), a).firedCoordinates;
      && PlayerOf(Step(g, e), Opponent(a)) == PlayerOf(g, Opponent(a))
      && (after == before
          || (!PlayerOf(g, a).fired && exists c :: after == before + [c] && c !in before))
  {
    var a := g.phase.attacker;
    var p := PlayerOf(g, a);
    if e.LeftClick? && e.cell in g.phase.armed && !p.fired {
      assert PlayerOf(Step(g, e), a).firedCoordinates == p.firedCoordinates + [e.cell];
    }
  }

  /** Outside a restart, ship indices only move forward. */
  lemma ShipIndexNeverDecreases(g: Game, e: Event)
    requires !g.phase.Won?
    ensures Step(g, e).one.shipSizeIndex >= g.one.shipSizeIndex
    ensures Step(g, e).two.shipSizeIndex >= g.two.shipSizeIndex
  {
  }

  /** The player screen shown to the defender never fails in a reachable
      state, and shows exactly the opponent's hits and misses. */
  lemma PlayerScreenShown(g: Game, current: Side)
    requires Inv(g)
    ensures var ships := PlayerOf(g, current).shipCoordinates;
      var fired := PlayerOf(g, Opponent(current)).firedCoordinates;
      DisplayPlayerScreen(ships, fired)
        == Some(PlayerScreen(Select(ships, fired, true), Select(fired, ships, false)))
  {
    PlayerScreenExact(PlayerOf(g, current).shipCoordinates, PlayerOf(g, Opponent(current)).firedCoordinates);
  }

  /** The squares `display_player_screen` looks up, the defender's ship
      cells and the opponent's shots, all exist on the built board: no
      lookup raises IndexError or wraps around. */
  lemma PlayerScreenSquaresExist(g: Game, current: Side, grid: Grids.Grid)
    requires Inv(g)
    requires grid.size == GRID_SIZE && Grids.ColumnByColumn(grid.squares, grid.size)
    ensures var ships := PlayerOf(g, current).shipCoordinates;
      forall i :: 0 <= i < |ships| ==>
        Grids.GetSquare(grid, ships[i].x, ships[i].y) == Some(Grids.Square(ships[i].x, ships[i].y))
    ensures var fired := PlayerOf(g, Opponent(current)).firedCoordinates;
      forall i :: 0 <= i < |fired| ==>
        Grids.GetSquare(grid, fired[i].x, fired[i].y) == Some(Grids.Square(fired[i].x, fired[i].y))
  {
    var ships := PlayerOf(g, current).shipCoordinates;
    var fired := PlayerOf(g, Opponent(current)).firedCoordinates;
    forall i | 0 <= i < |ships|
      ensures Grids.GetSquare(grid, ships[i].x, ships[i].y) == Some(Grids.Square(ships[i].x, ships[i].y))
    {
      Grids.GetSquareFindsCell(grid, ships[i].x, ships[i].y);
    }
    forall i | 0 <= i < |fired|
      ensures Grids.GetSquare(grid, fired[i].x, fired[i].y) == Some(Grids.Square(fired[i].x, fired[i].y))
    {
      Grids.GetSquareFindsCell(grid, fired[i].x, fired[i].y);
    }
  }

}
