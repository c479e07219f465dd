/** The snake game as a state machine on an integer grid; every event is delivered before the next move. */
module Snake {
  import opened Collections
  import opened Wrappers

  datatype Pos = Pos(x: int, y: int)

  datatype Direction = Right | Up | Left | Down

  datatype Border = Border(up: int, bottom: int, left: int, right: int)

  datatype GameState = Gaming | GameOver

  datatype Obstacle = NoObstacle | Apple | SnakeBody | Wall

  function ToDelta(d: Direction): Pos {
    match d
    case Right => Pos(1, 0)
    case Up => Pos(0, 1)
    case Left => Pos(-1, 0)
    case Down => Pos(0, -1)
  }

  function Plus(p: Pos, d: Pos): Pos {
    Pos(p.x + d.x, p.y + d.y)
  }

  /** The enumeration's number of a direction. */
  function Number(d: Direction): nat {
    match d case Right => 0 case Up => 1 case Left => 2 case Down => 3
  }

  predicate IsParallel(a: Direction, b: Direction) {
    Number(a) % 2 == Number(b) % 2
  }

  predicate IsOpposite(a: Direction, b: Direction) {
    a != b && IsParallel(a, b)
  }

  /** Opposite directions are those that undo each other. */
  lemma {:induction false} OppositeUndoes(a: Direction, b: Direction, p: Pos)
    ensures IsOpposite(a, b) <==> Plus(Plus(p, ToDelta(a)), ToDelta(b)) == p
  {
    match a
    case Right => match b { case _ => }
    case Up => match b { case _ => }
    case Left => match b { case _ => }
    case Down => match b { case _ => }
  }

  predicate Inside(p: Pos, b: Border) {
    b.left < p.x < b.right && b.bottom < p.y < b.up
  }

  // ---------- how many cells there are ----------

  ghost function Cells(b: Border): set<Pos> {
    set x, y | b.left < x < b.right && b.bottom < y < b.up :: Pos(x, y)
  }

  function CellCount(b: Border): int {
    (b.right - b.left - 1) * (b.up - b.bottom - 1)
  }

  ghost function Column(x: int, bottom: int, up: int): set<Pos> {
    set y | bottom < y < up :: Pos(x, y)
  }

  lemma {:induction false} ColumnSize(x: int, bottom: int, up: int)
    requires bottom < up
    ensures |Column(x, bottom, up)| == up - bottom - 1
    decreases up - bottom
  {
    if bottom + 1 < up {
      ColumnSize(x, bottom, up - 1);
      assert Column(x, bottom, up) == Column(x, bottom, up - 1) + {Pos(x, up - 1)};
    } else {
      assert Column(x, bottom, up) == {};
    }
  }

  lemma {:induction false} CellsSize(b: Border)
    requires b.left < b.right && b.bottom < b.up
    ensures |Cells(b)| == CellCount(b)
    decreases b.right - b.left
  {
    if b.left + 1 < b.right {
      var less := b.(right := b.right - 1);
      CellsSize(less);
      ColumnSize(b.right - 1, b.bottom, b.up);
      assert Cells(b) == Cells(less) + Column(b.right - 1, b.bottom, b.up);
      assert Cells(less) !! Column(b.right - 1, b.bottom, b.up);
      OneMore(less.right - b.left - 1, b.up - b.bottom - 1);
    } else {
      assert Cells(b) == {};
    }
  }

  lemma OneMore(n: int, m: int)
    ensures (n + 1) * m == n * m + m
  {}

  /** A snake that does not cross itself has at most as many parts as there are cells, and leaves one free unless
      it covers all. */
  lemma {:induction false} FreeCell(s: seq<Pos>, b: Border)
    requires Distinct(s) && (forall p :: p in s ==> Inside(p, b)) && b.left < b.right && b.bottom < b.up
    ensures |s| <= CellCount(b)
    ensures |s| < CellCount(b) <==> exists p :: Inside(p, b) && p !in s
  {
    CellsSize(b);
    DistinctSize(s);
    forall p | p in Elements(s) ensures p in Cells(b) {}
    SubsetSize(Elements(s), Cells(b));
    if |s| < CellCount(b) {
      assert Cells(b) - Elements(s) != {} by {
        if Cells(b) - Elements(s) == {} {
          forall p | p in Cells(b) ensures p in Elements(s) { assert p !in Cells(b) - Elements(s); }
          SubsetSize(Cells(b), Elements(s));
        }
      }
      var p :| p in Cells(b) - Elements(s);
      assert Inside(p, b) && p !in s;
    }
    if p :| Inside(p, b) && p !in s {
      assert p in Cells(b) && p !in Elements(s);
    }
  }

  // ---------- the state machine ----------

  /** `lastTime` counts up to the interval between moves, `intent` is a move sent and not yet executed,
      and `polled` tells that keys have been read since a move was last considered: each frame does either once. */
  datatype World = World(
    state: GameState,
    bodies: seq<Pos>,
    facing: Direction,
    apple: Option<Pos>,
    score: int,
    lastTime: real,
    intent: Option<Direction>,
    polled: bool)

  /** The systems of a frame, each with what it reads: the key just pressed, the time passed, the move sent. */
  datatype Event = Poll(key: Option<Direction>) | Schedule(dt: real) | Execute | Restart

  predicate Adjacent(p: Pos, q: Pos) {
    exists d: Direction :: q == Plus(p, ToDelta(d))
  }

  /** Neighbouring parts lie one step apart; the head is the last part. */
  ghost predicate UnitSteps(s: seq<Pos>) {
    forall i :: 0 <= i < |s| - 1 ==> Adjacent(s[i], s[i + 1])
  }

  /** The board holds the snake the game starts with. */
  predicate BoardOk(b: Border) {
    b.left < -3 && 0 < b.right && b.bottom < 0 < b.up
  }

  const START: seq<Pos> := [Pos(-3, 0), Pos(-2, 0), Pos(-1, 0), Pos(0, 0)]

  /** In every state of a game under way the snake is a path of unit steps that does not meet itself, inside the border;
      its length is the score plus four; the apple lies on a free cell, and there is none only when no cell is free. */
  ghost predicate OnBoard(b: Border, w: World) {
    && Distinct(w.bodies) && UnitSteps(w.bodies) && (forall p :: p in w.bodies ==> Inside(p, b))
    && |w.bodies| == w.score + 4 && w.score >= 0
    && (w.apple.Some? ==> Inside(w.apple.value, b) && w.apple.value !in w.bodies)
    && (w.apple.None? ==> |w.bodies| == CellCount(b))
  }

  /** The direction of the last move: from the neck to the head. */
  function Heading(s: seq<Pos>): Direction
    requires |s| > 1
  {
    var neck, head := s[|s| - 2], s[|s| - 1];
    if head.x > neck.x then Right else if head.y > neck.y then Up else if head.x < neck.x then Left else Down
  }

  /** The direction of the move under way, or else of the last one. */
  function Course(w: World): Direction
    requires |w.bodies| > 1
  {
    if w.intent.Some? then w.intent.value else Heading(w.bodies)
  }

  /** Neither a move under way nor the way the snake faces turns it around; and it has turned away from its course
      only if keys have just been read and the next move is due. */
  predicate Steered(w: World, interval: real)
    requires |w.bodies| > 1
  {
    && !IsOpposite(Heading(w.bodies), Course(w))
    && !IsOpposite(Course(w), w.facing)
    && (w.facing == Course(w) || (w.polled && w.lastTime >= interval))
  }

  ghost predicate Inv(b: Border, interval: real, w: World) {
    BoardOk(b) && interval > 0.0 && (w.state == Gaming ==> OnBoard(b, w) && Steered(w, interval))
  }

  function Head(s: seq<Pos>): Pos
    requires |s| > 0
  {
    s[|s| - 1]
  }

  /** A new apple lies on any free cell, if there is one. */
  ghost predicate Spawned(b: Border, bodies: seq<Pos>, apple: Option<Pos>) {
    if |bodies| >= CellCount(b) then apple.None?
    else apple.Some? && Inside(apple.value, b) && apple.value !in bodies
  }

  ghost predicate Started(b: Border, w: World) {
    && w.state == Gaming && w.bodies == START && w.facing == Right && w.score == 0 && Spawned(b, START, w.apple)
    && w.lastTime == 0.0 && w.intent == None && !w.polled
  }

  /** What a step into `next` runs into: the tail does not count, it moves away. */
  function Hit(b: Border, w: World, next: Pos): Obstacle {
    if !Inside(next, b) then Wall
    else if |w.bodies| > 0 && next in w.bodies[1..] then SnakeBody
    else if w.apple == Some(next) then Apple
    else NoObstacle
  }

  /** How often the interval fits. */
  function Fits(t: real, interval: real): nat
    requires interval > 0.0
  {
    if t > 0.0 then (t / interval).Floor else 0
  }

  lemma QuotientIs(t: real, interval: real, q: real)
    requires interval > 0.0 && q * interval == t
    ensures t / interval == q
  {}

  lemma FitsLess(t: real, interval: real)
    requires interval > 0.0 && t > interval
    ensures Fits(t - interval, interval) < Fits(t, interval)
  {
    var q := t / interval;
    assert q * interval == t;
    assert (q - 1.0) * interval == t - interval;
    QuotientIs(t - interval, interval, q - 1.0);
  }

  /** What is left of the time when whole intervals are taken away. */
  function Rest(t: real, interval: real): (r: real)
    requires interval > 0.0
    ensures r <= interval && (t > 0.0 ==> r > 0.0) && (t <= interval ==> r == t)
    decreases Fits(t, interval)
  {
    if t > interval then
      FitsLess(t, interval);
      Rest(t - interval, interval)
    else t
  }

  ghost predicate Next(b: Border, interval: real, w: World, e: Event, w': World)
    requires interval > 0.0
  {
    match e
    case Poll(key) =>
      if w.state != Gaming then w' == w
      else !w.polled && w' == Turned(w, key, interval)
    case Schedule(dt) =>
      if w.state != Gaming then w' == w
      else dt >= 0.0 && w.intent.None? && w' == Scheduled(w, dt, interval)
    case Execute =>
      if w.state != Gaming || w.intent.None? || |w.bodies| == 0 then w' == w
      else Stepped(b, w.(intent := None), Plus(Head(w.bodies), ToDelta(w.intent.value)), w')
    case Restart => if w.state == GameOver then Started(b, w') else w' == w
  }

  /** An accepted key turns the snake and makes the next move due at once. */
  function Turned(w: World, key: Option<Direction>, interval: real): World {
    if key.Some? && !IsOpposite(w.facing, key.value)
    then w.(facing := key.value, lastTime := interval, polled := true)
    else w.(polled := true)
  }

  /** When the interval has passed a move is sent that way the snake faces. */
  function Scheduled(w: World, dt: real, interval: real): World
    requires interval > 0.0
  {
    var t := w.lastTime + dt;
    if t < interval then w.(lastTime := t, polled := false)
    else w.(lastTime := Rest(t, interval), intent := Some(w.facing), polled := false)
  }

  ghost predicate Stepped(b: Border, w: World, next: Pos, w': World)
    requires |w.bodies| > 0
  {
    match Hit(b, w, next)
    case NoObstacle => w' == w.(bodies := w.bodies[1..] + [next])
    case Apple =>
      && w' == w.(bodies := w.bodies + [next], score := w.score + 1, apple := w'.apple)
      && Spawned(b, w'.bodies, w'.apple)
    case _ => w' == w.(state := GameOver, bodies := [], apple := None)
  }

  lemma {:induction false} AdjacentDelta(p: Pos, d: Direction)
    ensures Adjacent(p, Plus(p, ToDelta(d)))
    ensures Plus(p, ToDelta(d)) != p
  {}

  lemma {:induction false} StartIsPath(b: Border)
    requires BoardOk(b)
    ensures |START| == 4 && Distinct(START) && UnitSteps(START) && forall p :: p in START ==> Inside(p, b)
  {
    forall i | 0 <= i < 4 ensures START[i] == Pos(i - 3, 0) { StartAt(i); }
    hide START, Adjacent, ToDelta;
    StartSize();
    forall i | 0 <= i < 3 ensures Adjacent(START[i], START[i + 1]) {
      AdjacentDelta(START[i], Right);
      RightOf(START[i]);
    }
    forall p | p in START ensures Inside(p, b) {
      var i :| 0 <= i < 4 && START[i] == p;
    }
  }

  lemma StartSize()
    ensures |START| == 4
  {}

  lemma StartAt(i: nat)
    requires i < 4
    ensures START[i] == Pos(i - 3, 0)
  {}

  lemma RightOf(p: Pos)
    ensures Plus(p, ToDelta(Right)) == Pos(p.x + 1, p.y)
  {}

  lemma {:induction false} StartedKeeps(b: Border, interval: real, w: World)
    requires BoardOk(b) && interval > 0.0 && Started(b, w)
    ensures Inv(b, interval, w)
  {
    StartIsPath(b);
    StartHeading();
    hide START, CellCount, Distinct, UnitSteps, Heading;
    FreeCell(START, b);
  }

  lemma StartHeading()
    ensures |START| > 1 && Heading(START) == Right
  {}

  /** Stepping on: the head goes first, each part to the place of the one before it. */
  lemma {:induction false} AdvanceKeeps(b: Border, s: seq<Pos>, d: Direction)
    requires |s| > 0 && Distinct(s) && UnitSteps(s)
    requires var next := Plus(Head(s), ToDelta(d)); next !in s[1..]
    ensures var t := s[1..] + [Plus(Head(s), ToDelta(d))]; Distinct(t) && UnitSteps(t)
  {
    var next := Plus(Head(s), ToDelta(d));
    var t := s[1..] + [next];
    AdjacentDelta(Head(s), d);
    forall i | 0 <= i < |t| - 1 ensures Adjacent(t[i], t[i + 1]) {
      if i + 1 < |s| - 1 { assert t[i] == s[i + 1] && t[i + 1] == s[i + 2]; }
    }
    forall i, j | 0 <= i < j < |t| ensures t[i] != t[j] {
      assert t[i] == s[1..][i];
      if j < |s| - 1 { assert t[i] == s[i + 1] && t[j] == s[j + 1]; }
    }
  }

  /** Growing: everything stays and the apple's cell becomes the head. */
  lemma {:induction false} GrowKeeps(b: Border, s: seq<Pos>, d: Direction)
    requires |s| > 0 && Distinct(s) && UnitSteps(s)
    requires Plus(Head(s), ToDelta(d)) !in s
    ensures var t := s + [Plus(Head(s), ToDelta(d))]; Distinct(t) && UnitSteps(t)
  {
    AdjacentDelta(Head(s), d);
  }

  /** The neck comes from where the head was. */
  lemma {:induction false} HeadingIs(s: seq<Pos>, d: Direction)
    requires |s| > 1 && s[|s| - 1] == Plus(s[|s| - 2], ToDelta(d))
    ensures Heading(s) == d
  {}

  lemma {:induction false} HeadingSteps(s: seq<Pos>)
    requires |s| > 1 && UnitSteps(s)
    ensures s[|s| - 1] == Plus(s[|s| - 2], ToDelta(Heading(s)))
  {
    assert Adjacent(s[|s| - 2], s[|s| - 1]);
  }

  /** Reading keys: they have not been read since the last move was considered, so the snake faces its course. */
  lemma {:induction false} PollKeeps(b: Border, interval: real, w: World, key: Option<Direction>, w': World)
    requires Inv(b, interval, w) && Next(b, interval, w, Poll(key), w') && w.state == Gaming
    ensures Inv(b, interval, w')
  {
    hide CellCount, Heading, Distinct, UnitSteps;
    assert w'.bodies == w.bodies;
  }

  /** Considering a move: with a turn pending the interval has passed, so the turn is sent. */
  lemma {:induction false} ScheduleKeeps(b: Border, interval: real, w: World, dt: real, w': World)
    requires Inv(b, interval, w) && Next(b, interval, w, Schedule(dt), w') && w.state == Gaming
    ensures Inv(b, interval, w')
  {
    hide CellCount, Heading, Distinct, UnitSteps;
    assert w'.bodies == w.bodies;
  }

  lemma {:induction false} ExecuteKeeps(b: Border, interval: real, w: World, w': World)
    requires Inv(b, interval, w) && Next(b, interval, w, Execute, w') && w.state == Gaming && w.intent.Some?
    ensures Inv(b, interval, w')
  {
    if w'.state == Gaming {
      var d := w.intent.value;
      StepKeepsBoard(b, w, d, w');
      HeadingIs(w'.bodies, d);
    }
  }

  lemma {:induction false} StepKeepsBoard(b: Border, w: World, d: Direction, w': World)
    requires BoardOk(b) && OnBoard(b, w) && w'.state == Gaming && w.state == Gaming
    requires Stepped(b, w.(intent := None), Plus(Head(w.bodies), ToDelta(d)), w')
    ensures OnBoard(b, w')
  {
    var next := Plus(Head(w.bodies), ToDelta(d));
    FreeCell(w.bodies, b);
    if Hit(b, w, next) == Apple {
      GrowKeeps(b, w.bodies, d);
      FreeCell(w'.bodies, b);
    } else {
      AdvanceKeeps(b, w.bodies, d);
      FreeCell(w'.bodies, b);
      StaysFree(b, w, next);
    }
  }

  /** A step that is no apple leaves the apple where it is, still on a free cell. */
  lemma {:induction false} StaysFree(b: Border, w: World, next: Pos)
    requires |w.bodies| > 0 && w.apple != Some(next)
    ensures w.apple.Some? && w.apple.value !in w.bodies ==> w.apple.value !in w.bodies[1..] + [next]
    ensures |w.bodies[1..] + [next]| == |w.bodies|
    ensures (forall p :: p in w.bodies ==> Inside(p, b)) && Inside(next, b) ==>
              forall p :: p in w.bodies[1..] + [next] ==> Inside(p, b)
  {}

  /** Every event keeps the invariant. */
  lemma {:induction false} NextKeeps(b: Border, interval: real, w: World, e: Event, w': World)
    requires Inv(b, interval, w) && Next(b, interval, w, e, w')
    ensures Inv(b, interval, w')
  {
    hide OnBoard, Steered;
    match e
    case Poll(key) => if w.state == Gaming { PollKeeps(b, interval, w, key, w'); }
    case Schedule(dt) => if w.state == Gaming { ScheduleKeeps(b, interval, w, dt, w'); }
    case Execute => if w.state == Gaming && w.intent.Some? { ExecuteKeeps(b, interval, w, w'); }
    case Restart => if w.state == GameOver { StartedKeeps(b, interval, w'); }
  }

  /** A run: a first state of a game, and a state after each event. */
  ghost predicate Run(b: Border, interval: real, ws: seq<World>, es: seq<Event>)
    requires interval > 0.0
  {
    && |ws| == |es| + 1 && Started(b, ws[0])
    && forall i :: 0 <= i < |es| ==> Next(b, interval, ws[i], es[i], ws[i + 1])
  }

  lemma {:induction false} RunKeeps(b: Border, interval: real, ws: seq<World>, es: seq<Event>, k: nat)
    requires interval > 0.0 && BoardOk(b) && Run(b, interval, ws, es) && k < |ws|
    ensures Inv(b, interval, ws[k])
  {
    hide Inv, Next;
    if k == 0 {
      StartedKeeps(b, interval, ws[0]);
    } else {
      RunKeeps(b, interval, ws, es, k - 1);
      NextKeeps(b, interval, ws[k - 1], es[k - 1], ws[k]);
    }
  }

  // ---------- turning around ----------

  /** The part behind the head. */
  function Neck(s: seq<Pos>): Pos
    requires |s| > 1
  {
    s[|s| - 2]
  }

  /** A step back onto the neck would end the game. */
  lemma {:induction false} ReversalEnds(b: Border, w: World)
    requires |w.bodies| > 2 && forall p :: p in w.bodies ==> Inside(p, b)
    ensures Hit(b, w, Neck(w.bodies)) == SnakeBody
  {
    assert Neck(w.bodies) == w.bodies[1..][|w.bodies| - 3];
  }

  /** But no run ever takes one: however keys are pressed, no move turns the snake onto its neck, and when no move is
      under way the snake does not face its neck either. */
  lemma {:induction false} NeverOntoNeck(b: Border, interval: real, ws: seq<World>, es: seq<Event>, k: nat)
    requires interval > 0.0 && BoardOk(b) && Run(b, interval, ws, es) && k < |ws| && ws[k].state == Gaming
    ensures |ws[k].bodies| > 1
    ensures ws[k].intent.Some? ==> Plus(Head(ws[k].bodies), ToDelta(ws[k].intent.value)) != Neck(ws[k].bodies)
    ensures ws[k].intent.None? ==> Plus(Head(ws[k].bodies), ToDelta(ws[k].facing)) != Neck(ws[k].bodies)
  {
    RunKeeps(b, interval, ws, es, k);
    var s := ws[k].bodies;
    HeadingSteps(s);
    OppositeUndoes(Heading(s), Course(ws[k]), Neck(s));
    OppositeUndoes(Heading(s), ws[k].facing, Neck(s));
  }

  /** So a game ends only at the border or at a part of the body that is neither the neck nor the tail. */
  lemma {:induction false} HowGamesEnd(b: Border, interval: real, ws: seq<World>, es: seq<Event>, k: nat)
    requires interval > 0.0 && BoardOk(b) && Run(b, interval, ws, es) && k < |es|
    requires ws[k].state == Gaming && ws[k + 1].state == GameOver
    ensures es[k] == Execute && ws[k].intent.Some? && |ws[k].bodies| > 3
    ensures var s, next := ws[k].bodies, Plus(Head(ws[k].bodies), ToDelta(ws[k].intent.value));
            !Inside(next, b) || next in s[1..|s| - 2]
  {
    RunKeeps(b, interval, ws, es, k);
    NeverOntoNeck(b, interval, ws, es, k);
    assert Next(b, interval, ws[k], es[k], ws[k + 1]);
    var s, next := ws[k].bodies, Plus(Head(ws[k].bodies), ToDelta(ws[k].intent.value));
    AdjacentDelta(Head(s), ws[k].intent.value);
    if Inside(next, b) {
      var i :| 0 <= i < |s| - 1 && s[1..][i] == next;
      assert s[i + 1] == next && i + 1 < |s| - 2;
      assert s[1..|s| - 2][i] == next;
    }
  }

  // ---------- what a player sees ----------

  /** The cell a move leads to: right and left along x, up and down along y. */
  function Ahead(p: Pos, d: Direction): Pos {
    Pos(p.x + (if d == Right then 1 else if d == Left then -1 else 0),
        p.y + (if d == Up then 1 else if d == Down then -1 else 0))
  }

  lemma {:induction false} DeltaIsAhead(p: Pos, d: Direction)
    ensures Plus(p, ToDelta(d)) == Ahead(p, d)
    ensures Ahead(p, Right) == Pos(p.x + 1, p.y) && Ahead(p, Left) == Pos(p.x - 1, p.y)
    ensures Ahead(p, Up) == Pos(p.x, p.y + 1) && Ahead(p, Down) == Pos(p.x, p.y - 1)
  {}

  /** The cell lies on the border or behind it, or a part of the snake that will not have moved away is there. */
  predicate Blocked(b: Border, s: seq<Pos>, cell: Pos)
    requires |s| > 0
  {
    cell.x <= b.left || cell.x >= b.right || cell.y <= b.bottom || cell.y >= b.up || cell in s[1..]
  }

  /** In every run a move into a blocked cell ends the game, and no other move does. Otherwise the head is in that cell;
      on an apple the snake grows by one and the score rises, elsewhere it stays as long as it was. */
  lemma {:induction false} MoveOutcome(b: Border, interval: real, ws: seq<World>, es: seq<Event>, k: nat)
    requires interval > 0.0 && BoardOk(b) && Run(b, interval, ws, es) && k < |es|
    requires ws[k].state == Gaming && es[k] == Execute && ws[k].intent.Some?
    ensures |ws[k].bodies| > 3 && ws[k + 1].facing == ws[k].facing && ws[k + 1].lastTime == ws[k].lastTime
    ensures ws[k + 1].intent.None?
    ensures var w, w', s := ws[k], ws[k + 1], ws[k].bodies;
            var cell := Ahead(s[|s| - 1], w.intent.value);
            && (w'.state == GameOver <==> Blocked(b, s, cell))
            && (w'.state == GameOver ==> w'.bodies == [] && w'.apple.None? && w'.score == w.score)
            && (w'.state == Gaming && w.apple != Some(cell) ==>
                  w'.bodies == s[1..] + [cell] && w'.apple == w.apple && w'.score == w.score)
            && (w'.state == Gaming && w.apple == Some(cell) ==>
                  && w'.bodies == s + [cell] && w'.score == w.score + 1
                  && (w'.apple.None? ==> forall p :: Inside(p, b) ==> p in w'.bodies)
                  && (w'.apple.Some? ==> Inside(w'.apple.value, b) && w'.apple.value !in w'.bodies))
  {
    hide CellCount, Distinct, UnitSteps, Heading, ToDelta, Ahead, START;
    RunKeeps(b, interval, ws, es, k);
    RunKeeps(b, interval, ws, es, k + 1);
    assert Next(b, interval, ws[k], es[k], ws[k + 1]);
    var w, w', s := ws[k], ws[k + 1], ws[k].bodies;
    DeltaIsAhead(s[|s| - 1], w.intent.value);
    if w'.state == Gaming { FreeCell(w'.bodies, b); }
  }

  /** Opposite to right is left, to up is down. */
  predicate Against(a: Direction, b: Direction) {
    (a == Right && b == Left) || (a == Left && b == Right) || (a == Up && b == Down) || (a == Down && b == Up)
  }

  /** A key turns the snake that way and makes the next move due, unless it is opposite to where the snake faces. */
  lemma {:induction false} KeyOutcome(b: Border, interval: real, ws: seq<World>, es: seq<Event>, k: nat, d: Direction)
    requires interval > 0.0 && Run(b, interval, ws, es) && k < |es| && ws[k].state == Gaming && es[k] == Poll(Some(d))
    ensures !Against(ws[k].facing, d) ==> ws[k + 1].facing == d && ws[k + 1].lastTime == interval
    ensures Against(ws[k].facing, d) ==> ws[k + 1].facing == ws[k].facing && ws[k + 1].lastTime == ws[k].lastTime
    ensures ws[k + 1].bodies == ws[k].bodies && ws[k + 1].apple == ws[k].apple && ws[k + 1].state == Gaming
    ensures ws[k + 1].score == ws[k].score && ws[k + 1].intent == ws[k].intent
  {
    assert Next(b, interval, ws[k], es[k], ws[k + 1]);
  }

  function Intervals(m: nat, interval: real): real {
    m as real * interval
  }

  lemma {:induction false} RestIsLess(t: real, interval: real) returns (m: nat)
    requires interval > 0.0
    ensures Rest(t, interval) == t - Intervals(m, interval)
    decreases Fits(t, interval)
  {
    m := 0;
    if t > interval {
      FitsLess(t, interval);
      m := RestIsLess(t - interval, interval);
      OneInterval(m, interval);
      m := m + 1;
    }
  }

  lemma OneInterval(m: nat, interval: real)
    ensures (m + 1) as real * interval == m as real * interval + interval
  {}

  /** A move that way the snake faces is sent exactly when the interval has passed, and what is left of the time is less
      by whole intervals, positive, and at most one interval. */
  lemma {:induction false} TimeOutcome(b: Border, interval: real, ws: seq<World>, es: seq<Event>, k: nat, dt: real)
    requires interval > 0.0 && Run(b, interval, ws, es) && k < |es| && ws[k].state == Gaming && es[k] == Schedule(dt)
    ensures ws[k + 1].intent.Some? <==> ws[k].lastTime + dt >= interval
    ensures ws[k + 1].intent.Some? ==>
              && ws[k + 1].intent.value == ws[k].facing && 0.0 < ws[k + 1].lastTime <= interval
              && exists m: nat :: ws[k + 1].lastTime == ws[k].lastTime + dt - Intervals(m, interval)
    ensures ws[k + 1].intent.None? ==> ws[k + 1].lastTime == ws[k].lastTime + dt
    ensures ws[k + 1].bodies == ws[k].bodies && ws[k + 1].apple == ws[k].apple && ws[k + 1].state == Gaming
    ensures ws[k + 1].score == ws[k].score && ws[k + 1].facing == ws[k].facing
  {
    assert Next(b, interval, ws[k], es[k], ws[k + 1]);
    var t := ws[k].lastTime + dt;
    if t >= interval { var m := RestIsLess(t, interval); }
  }

  /** Without a key, a move under way or an end to restart from, nothing happens. */
  lemma {:induction false} IdleOutcome(b: Border, interval: real, ws: seq<World>, es: seq<Event>, k: nat)
    requires interval > 0.0 && Run(b, interval, ws, es) && k < |es| && ws[k].state == Gaming
    requires es[k] == Poll(None) || es[k] == Restart || (es[k] == Execute && ws[k].intent.None?)
    ensures ws[k + 1].(polled := ws[k].polled) == ws[k]
  {
    assert Next(b, interval, ws[k], es[k], ws[k + 1]);
  }

  /** A restart after the end begins anew, with four parts in a row, and nothing else happens after the end. */
  lemma {:induction false} RestartOutcome(b: Border, interval: real, ws: seq<World>, es: seq<Event>, k: nat)
    requires interval > 0.0 && BoardOk(b) && Run(b, interval, ws, es) && k < |es| && ws[k].state == GameOver
    ensures es[k] != Restart ==> ws[k + 1] == ws[k]
    ensures es[k] == Restart ==>
              var w := ws[k + 1];
              && w.state == Gaming && w.facing == Right && w.score == 0 && w.intent.None? && w.lastTime == 0.0
              && w.bodies == [Pos(-3, 0), Pos(-2, 0), Pos(-1, 0), Pos(0, 0)]
              && (w.apple.None? ==> forall p :: Inside(p, b) ==> p in w.bodies)
              && (w.apple.Some? ==> Inside(w.apple.value, b) && w.apple.value !in w.bodies)
  {
    hide CellCount, Distinct, UnitSteps, Heading;
    assert Next(b, interval, ws[k], es[k], ws[k + 1]);
    if es[k] == Restart {
      StartIsPath(b);
      FreeCell(START, b);
    }
  }

  // ---------- the game ----------

  class Game {
    const border: Border
    const interval: real
    var state: GameState
    var bodies: seq<Pos>
    var facing: Direction
    var apple: Option<Pos>
    var score: int
    var lastTime: real
    var intent: Option<Direction>
    ghost var polled: bool

    ghost function Snapshot(): World
      reads this
    {
      World(state, bodies, facing, apple, score, lastTime, intent, polled)
    }

    ghost predicate Valid()
      reads this
    {
      Inv(border, interval, Snapshot())
    }

    constructor (border: Border, interval: real)
      requires BoardOk(border) && interval > 0.0
      ensures Valid() && Started(border, Snapshot()) && this.border == border && this.interval == interval
    {
      this.border := border;
      this.interval := interval;
      state, bodies, facing, apple, score, lastTime, intent := GameOver, [], Right, None, 0, 0.0, None;
      new;
      CreateEntities();
    }

    /** Any free cell inside the border; the search begins only when there is one. */
    method NewApplePosition() returns (r: Option<Pos>)
      requires BoardOk(border) && Distinct(bodies) && forall p :: p in bodies ==> Inside(p, border)
      ensures Spawned(border, bodies, r)
    {
      var maxCount := (border.right - border.left - 1) * (border.up - border.bottom - 1);
      if |bodies| >= maxCount {
        return None;
      }
      FreeCell(bodies, border);
      var p := FindFree();
      return Some(p);
    }

    /** Stands for the rejection loop: it returns some drawn cell that passes its tests. */
    method FindFree() returns (p: Pos)
      requires exists q :: Inside(q, border) && q !in bodies
      ensures Inside(p, border) && p !in bodies
    {
      p :| Inside(p, border) && p !in bodies;
    }

    method CreateSnake()
      modifies this
      ensures bodies == START && facing == Right && lastTime == 0.0 && intent == None && !polled
      ensures state == old(state) && score == old(score) && apple == old(apple)
    {
      var initPos := Pos(0, 0);
      bodies := [initPos];
      for i := 0 to 3
        invariant bodies == START[3 - i..]
        invariant state == old(state) && score == old(score) && apple == old(apple)
      {
        bodies := [Pos(initPos.x - 1 - i, initPos.y)] + bodies;
      }
      facing, lastTime, intent, polled := Right, 0.0, None, false;
    }

    method CreateEntities()
      requires BoardOk(border) && interval > 0.0
      modifies this
      ensures Valid() && Started(border, Snapshot())
    {
      hide START, CellCount, Distinct, UnitSteps, Heading;
      score := 0;
      CreateSnake();
      StartIsPath(border);
      apple := NewApplePosition();
      state := Gaming;
      StartedKeeps(border, interval, Snapshot());
    }

    /** Once a frame: the key just pressed, if any. */
    method HandleInput(keyInput: Option<Direction>)
      requires Valid() && state == Gaming && !polled
      modifies this`facing, this`lastTime, this`polled
      ensures Valid() && Next(border, interval, old(Snapshot()), Poll(keyInput), Snapshot())
    {
      ghost var w := Snapshot();
      if keyInput.Some? {
        if !IsOpposite(facing, keyInput.value) {
          facing := keyInput.value;
          lastTime := interval;
        }
      }
      polled := true;
      hide Inv;
      NextKeeps(border, interval, w, Poll(keyInput), Snapshot());
    }

    /** Once a frame: send a move when the interval has passed. */
    method ScheduleMove(dt: real)
      requires Valid() && state == Gaming && dt >= 0.0 && intent.None?
      modifies this`lastTime, this`intent, this`polled
      ensures Valid() && Next(border, interval, old(Snapshot()), Schedule(dt), Snapshot())
    {
      ghost var w := Snapshot();
      polled := false;
      lastTime := lastTime + dt;
      if lastTime >= interval {
        while lastTime > interval
          invariant Rest(lastTime, interval) == Rest(w.lastTime + dt, interval)
          invariant Snapshot() == w.(lastTime := lastTime, polled := false)
          decreases Fits(lastTime, interval)
        {
          FitsLess(lastTime, interval);
          lastTime := lastTime - interval;
        }
        intent := Some(facing);
      }
      hide Inv;
      NextKeeps(border, interval, w, Schedule(dt), Snapshot());
    }

    method QueryCollideObstacle(nextPos: Pos) returns (r: Obstacle)
      requires |bodies| > 1 && nextPos != Head(bodies)
      ensures r == Hit(border, Snapshot(), nextPos)
    {
      if nextPos.x <= border.left || nextPos.x >= border.right || nextPos.y <= border.bottom || nextPos.y >= border.up {
        return Wall;
      }
      for i := 1 to |bodies| - 1
        invariant forall k :: 1 <= k < i ==> bodies[k] != nextPos
      {
        if bodies[i] == nextPos {
          assert bodies[1..][i - 1] == nextPos;
          return SnakeBody;
        }
      }
      assert nextPos !in bodies[1..];
      if apple.Some? {
        if nextPos == apple.value {
          return Apple;
        }
      }
      return NoObstacle;
    }

    /** Every part takes the place of the next one. */
    method Advance(nextPos: Pos)
      requires |bodies| > 0
      modifies this`bodies
      ensures bodies == old(bodies)[1..] + [nextPos]
    {
      var n := |bodies| - 1;
      for i := 0 to n
        invariant |bodies| == n + 1
        invariant forall k :: 0 <= k < i ==> bodies[k] == old(bodies)[k + 1]
        invariant forall k :: i <= k <= n ==> bodies[k] == old(bodies)[k]
      {
        bodies := bodies[i := bodies[i + 1]];
      }
      bodies := bodies[n := nextPos];
    }

    /** The event is read, and with it the direction it carries. */
    method ExecuteMove()
      requires Valid() && state == Gaming && intent.Some?
      modifies this
      ensures Valid() && Next(border, interval, old(Snapshot()), Execute, Snapshot())
    {
      ghost var w := Snapshot();
      var delta := ToDelta(intent.value);
      AdjacentDelta(bodies[|bodies| - 1], intent.value);
      intent := None;
      var headPosition := bodies[|bodies| - 1];
      var nextPos := Plus(headPosition, delta);
      var obstacle := QueryCollideObstacle(nextPos);
      if obstacle == NoObstacle {
        Advance(nextPos);
      } else if obstacle == Apple {
        bodies := bodies[|bodies| - 1 := nextPos];
        bodies := bodies[..|bodies| - 1] + [headPosition] + bodies[|bodies| - 1..];
        assert bodies == w.bodies + [nextPos];
        EatApple(w, w.intent.value);
      } else {
        OnGameOver();
      }
      hide Inv;
      NextKeeps(border, interval, w, Execute, Snapshot());
    }

    /** What the eaten event sets off: the apple goes, the score rises, a new apple appears if there is room. */
    method EatApple(ghost w: World, ghost d: Direction)
      requires BoardOk(border) && OnBoard(border, w)
      requires var next := Plus(Head(w.bodies), ToDelta(d));
               Hit(border, w, next) == Apple && bodies == w.bodies + [next]
      requires score == w.score
      modifies this`apple, this`score
      ensures score == w.score + 1 && Spawned(border, bodies, apple)
    {
      apple := None;
      score := score + 1;
      assert w.bodies == [w.bodies[0]] + w.bodies[1..];
      GrowKeeps(border, w.bodies, d);
      apple := NewApplePosition();
    }

    method OnGameOver()
      modifies this`state, this`bodies, this`apple
      ensures state == GameOver && bodies == [] && apple == None
    {
      state := GameOver;
      bodies := [];
      apple := None;
    }

    method RestartGame()
      requires Valid() && state == GameOver
      modifies this
      ensures Valid() && Next(border, interval, old(Snapshot()), Restart, Snapshot())
    {
      CreateEntities();
    }
  }
}
