/** The snake simulation and the logic half of the frame loop (src/main.rs). */
module SnakeGame {
  import opened Menus

  const GRID_SIZE: int := 20
  /** Number of idle frames between two simulation steps. */
  const TICK_DELAY: int := 10

  /** A cell of the board, `(x, y)` with `y` growing downwards. */
  datatype Point = Point(x: int, y: int)

  /** The key the host reports; every key that is not an arrow is `Other`. */
  datatype Key = Up | Down | Left | Right | Other

  datatype Option<T> = None | Some(value: T)

  datatype GameState = Start | Run | End | Help | Scores | Exit

  const CENTER := Point(GRID_SIZE / 2, GRID_SIZE / 2)

  predicate InGrid(p: Point)
  {
    0 <= p.x < GRID_SIZE && 0 <= p.y < GRID_SIZE
  }

  function Abs(n: int): nat
  {
    if n < 0 then -n else n
  }

  /** The cell one step from `p` in direction `dir`; a non-arrow key does not move. */
  function Moved(p: Point, dir: Key): (q: Point)
    ensures dir == Other ==> q == p
    ensures dir != Other ==> Abs(q.x - p.x) + Abs(q.y - p.y) == 1
    ensures dir == Up ==> q.x == p.x && q.y < p.y
    ensures dir == Down ==> q.x == p.x && q.y > p.y
    ensures dir == Left ==> q.y == p.y && q.x < p.x
    ensures dir == Right ==> q.y == p.y && q.x > p.x
  {
    match dir
    case Up => p.(y := p.y - 1)
    case Down => p.(y := p.y + 1)
    case Left => p.(x := p.x - 1)
    case Right => p.(x := p.x + 1)
    case Other => p
  }

  /** The wall check of `mov`: only the coordinate that moved is compared with
      its bound. For a head on the board it is exact. */
  function HitsWall(p: Point, dir: Key): (hit: bool)
    ensures hit ==> !InGrid(Moved(p, dir))
    ensures InGrid(p) ==> (hit <==> !InGrid(Moved(p, dir)))
  {
    match dir
    case Up => p.y - 1 < 0
    case Down => p.y + 1 > GRID_SIZE - 1
    case Left => p.x - 1 < 0
    case Right => p.x + 1 > GRID_SIZE - 1
    case Other => false
  }

  /** `mov` reports a death: a wall hit, or the new head on a segment of the
      body after the old head has been pushed onto it. */
  function Collides(head: Point, body: seq<Point>, dir: Key): (c: bool)
    ensures dir == Other ==> c
    ensures InGrid(head) ==> (c <==> !InGrid(Moved(head, dir)) || Moved(head, dir) in [head] + body)
    ensures !c ==> Moved(head, dir) != head && Moved(head, dir) !in body
  {
    HitsWall(head, dir) || Moved(head, dir) in [head] + body
  }

  /** A non-arrow key leaves the head where it is, which is where the old head
      was just pushed: a step in that direction always dies. */
  lemma NonArrowCollides(head: Point, body: seq<Point>)
    ensures Collides(head, body, Other)
  {
  }

  /** Reversing onto the neck is a self-collision. */
  lemma ReverseCollides(head: Point, body: seq<Point>, dir: Key)
    requires |body| > 0 && Moved(head, dir) == body[0]
    ensures Collides(head, body, dir)
  {
  }

  /** The wall check looks only at the coordinate that moved, so a head that is
      already off the board (as after a collision with the top wall) survives a
      sideways move that keeps it off the board. */
  lemma OffBoardHeadSurvives()
    ensures !InGrid(Moved(Point(5, -1), Left))
    ensures !Collides(Point(5, -1), [Point(5, 0), Point(5, 1)], Left)
  {
  }

  /** The cells of a starting body of `len` segments counting the head, going
      straight down from the centre. */
  function InitialBody(len: nat): (b: seq<Point>)
    ensures |b| == if len == 0 then 0 else len - 1
    ensures forall k :: 0 <= k < |b| ==> b[k].x == CENTER.x && b[k].y == CENTER.y + k + 1
    ensures |b| > 0 ==> b[0] == Moved(CENTER, Down)
    ensures forall k :: 0 <= k < |b| - 1 ==> b[k + 1] == Moved(b[k], Down)
  {
    seq(if len == 0 then 0 else len - 1, k => Point(CENTER.x, CENTER.y + k + 1))
  }

  predicate Occupied(head: Point, body: seq<Point>, p: Point)
  {
    p == head || p in body
  }

  /** A cell where an apple may go. */
  predicate Free(head: Point, body: seq<Point>, p: Point)
  {
    InGrid(p) && !Occupied(head, body, p)
  }

  /** A snake that is still in play: on the board and not crossing itself. */
  predicate Alive(head: Point, body: seq<Point>)
  {
    InGrid(head) && head !in body && forall i :: 0 <= i < |body| ==> InGrid(body[i])
  }

  /** A starting snake no longer than half the board is alive, and its body
      never repeats a cell. */
  lemma InitialLayoutAlive(len: nat)
    requires len <= GRID_SIZE / 2
    ensures Alive(CENTER, InitialBody(len))
    ensures forall i, j :: 0 <= i < j < |InitialBody(len)| ==> InitialBody(len)[i] != InitialBody(len)[j]
  {
  }

  /** The body of `Snake::new(3)`. */
  lemma InitialBodyOfThree()
    ensures InitialBody(3) == [Point(10, 11), Point(10, 12)]
  {
  }

  class Snake {
    var body: seq<Point>
    var head: Point

    constructor (len: nat)
      ensures head == CENTER
      ensures body == InitialBody(len)
    {
      var h := CENTER;
      var b: seq<Point> := [];
      var i := 1;
      while i < len
        invariant 1 <= i <= if len == 0 then 1 else len
        invariant |b| == i - 1
        invariant forall k :: 0 <= k < |b| ==> b[k] == Point(h.x, h.y + k + 1)
      {
        b := b + [Point(h.x, h.y + i)];
        i := i + 1;
      }
      head := h;
      body := b;
    }

    /** Pushes the old head onto the body, moves the head one cell, and tells
        whether the snake survived. */
    method Mov(dir: Key) returns (alive: bool)
      modifies this
      ensures body == [old(head)] + old(body)
      ensures head == Moved(old(head), dir)
      ensures alive == !Collides(old(head), old(body), dir)
    {
      body := [head] + body;
      match dir {
        case Up =>
          head := head.(y := head.y - 1);
          if head.y < 0 {
            return false;
          }
        case Down =>
          head := head.(y := head.y + 1);
          if head.y > GRID_SIZE - 1 {
            return false;
          }
        case Left =>
          head := head.(x := head.x - 1);
          if head.x < 0 {
            return false;
          }
        case Right =>
          head := head.(x := head.x + 1);
          if head.x > GRID_SIZE - 1 {
            return false;
          }
        case Other =>
      }
      alive := head !in body;
    }
  }

  /** Every draw of the random source lies on the board. */
  predicate AllInGrid(draws: seq<Point>)
  {
    forall i :: 0 <= i < |draws| ==> InGrid(draws[i])
  }

  /** The random source eventually draws a cell free of the snake. */
  predicate HasFreeDraw(head: Point, body: seq<Point>, draws: seq<Point>)
  {
    exists i :: 0 <= i < |draws| && Free(head, body, draws[i])
  }

  /** Rejection sampling: `draws` are the successive random cells, and the
      apple is the first of them the snake does not occupy. */
  method NewApple(snake: Snake, draws: seq<Point>) returns (apple: Point)
    requires AllInGrid(draws)
    requires HasFreeDraw(snake.head, snake.body, draws)
    ensures Free(snake.head, snake.body, apple)
    ensures exists k :: 0 <= k < |draws| && apple == draws[k] &&
              forall j :: 0 <= j < k ==> Occupied(snake.head, snake.body, draws[j])
  {
    var i := 0;
    apple := draws[0];
    while apple in snake.body || apple == snake.head
      invariant 0 <= i < |draws| && apple == draws[i]
      invariant forall j :: 0 <= j < i ==> Occupied(snake.head, snake.body, draws[j])
      invariant exists k :: i <= k < |draws| && Free(snake.head, snake.body, draws[k])
      decreases |draws| - i
    {
      i := i + 1;
      apple := draws[i];
    }
  }

  /** The counter update of `Game::tick`. */
  function TickCounter(t: int): (r: int)
    ensures 0 <= t <= TICK_DELAY ==> 0 <= r <= TICK_DELAY
    ensures 0 <= t <= TICK_DELAY ==> (r == 0 <==> t == TICK_DELAY)
  {
    if t == TICK_DELAY then 0 else t + 1
  }

  /** The counter after `n` calls of `Game::tick` on a fresh game. */
  function CounterAfter(n: nat): int
  {
    if n == 0 then 0 else TickCounter(CounterAfter(n - 1))
  }

  /** How many of the first `n` calls of `Game::tick` fired. */
  function FiresWithin(n: nat): nat
  {
    if n == 0 then 0
    else FiresWithin(n - 1) + if CounterAfter(n - 1) == TICK_DELAY then 1 else 0
  }

  lemma {:induction false} CounterAfterIsRemainder(n: nat)
    ensures CounterAfter(n) == n % (TICK_DELAY + 1)
    ensures 0 <= CounterAfter(n) <= TICK_DELAY
  {
    if n > 0 {
      CounterAfterIsRemainder(n - 1);
    }
  }

  /** Call number `n` (counting from 1) fires exactly when `n` is a multiple
      of `TICK_DELAY + 1`. */
  lemma NthCallFires(n: nat)
    requires n >= 1
    ensures CounterAfter(n - 1) == TICK_DELAY <==> n % (TICK_DELAY + 1) == 0
  {
    CounterAfterIsRemainder(n - 1);
  }

  /** One step every `TICK_DELAY + 1` frames. */
  lemma {:induction false} FiresOncePerPeriod(n: nat)
    ensures FiresWithin(n) == n / (TICK_DELAY + 1)
  {
    if n > 0 {
      FiresOncePerPeriod(n - 1);
      NthCallFires(n);
    }
  }

  /** Every field of a game, with the snake's head and body, at one moment. */
  datatype GameView = GameView(
    head: Point,
    body: seq<Point>,
    apple: Point,
    tick: int,
    state: GameState,
    currentDir: Key,
    score: int)

  class Game {
    const snake: Snake
    var apple: Point
    var tick: int
    var state: GameState
    var currentDir: Key
    var score: int

    function View(): GameView
      reads this, snake
    {
      GameView(snake.head, snake.body, apple, tick, state, currentDir, score)
    }

    /** A game in play: a living snake, an apple on a free cell, and the tick
        counter within its range. */
    predicate Playing()
      reads this, snake
    {
      Alive(snake.head, snake.body) && Free(snake.head, snake.body, apple) && 0 <= tick <= TICK_DELAY
    }

    /** `Game::new`: the starting snake of length 3 and an apple drawn for it. */
    constructor (draws: seq<Point>)
      requires AllInGrid(draws)
      requires HasFreeDraw(CENTER, InitialBody(3), draws)
      ensures fresh(snake)
      ensures View() == GameView(CENTER, InitialBody(3), apple, 0, Start, Up, 0)
      ensures Playing()
    {
      var s := new Snake(3);
      var a := NewApple(s, draws);
      InitialLayoutAlive(3);
      snake := s;
      apple := a;
      tick := 0;
      state := Start;
      currentDir := Up;
      score := 0;
    }

    /** Counts one frame; true on the frame where the snake should move. */
    method Tick() returns (fired: bool)
      modifies this`tick
      ensures fired <==> old(tick) == TICK_DELAY
      ensures tick == TickCounter(old(tick))
    {
      if tick == TICK_DELAY {
        tick := 0;
        fired := true;
      } else {
        tick := tick + 1;
        fired := false;
      }
    }

    /** The snake will move onto the apple on this frame, so a new apple is drawn. */
    predicate WillEat(key: Option<Key>)
      reads this, snake
    {
      var dir := if key.Some? then key.value else currentDir;
      tick == TICK_DELAY && !Collides(snake.head, snake.body, dir) && Moved(snake.head, dir) == apple
    }

    /** What one frame in `Run` does to the game (src/main.rs:253-269). */
    twostate predicate RanFrame(key: Option<Key>)
      reads this, snake
    {
      var was := old(View());
      var dir := if key.Some? then key.value else was.currentDir;
      var moved := Moved(was.head, dir);
      var pushed := [was.head] + was.body;
      && currentDir == dir
      && tick == TickCounter(was.tick)
      && if was.tick != TICK_DELAY then
           View() == was.(currentDir := dir, tick := tick)
         else if Collides(was.head, was.body, dir) then
           View() == was.(currentDir := dir, tick := tick, head := moved, body := pushed, state := End)
         else if moved == was.apple then
           && View() == was.(currentDir := dir, tick := tick, head := moved, body := pushed,
                             score := was.score + 1, apple := apple)
           && Free(moved, pushed, apple)
         else
           View() == was.(currentDir := dir, tick := tick, head := moved, body := pushed[..|was.body|])
    }

    method RunFrame(key: Option<Key>, draws: seq<Point>)
      requires AllInGrid(draws)
      requires WillEat(key) ==> HasFreeDraw(apple, [snake.head] + snake.body, draws)
      modifies this, snake
      ensures RanFrame(key)
      ensures old(Playing()) ==> state == End || Playing()
    {
      currentDir := if key.Some? then key.value else currentDir;
      var fired := Tick();
      if fired {
        ghost var h, b := snake.head, snake.body;
        var alive := snake.Mov(currentDir);
        if !alive {
          state := End;
        } else if snake.head == apple {
          score := score + 1;
          apple := NewApple(snake, draws);
        } else {
          snake.body := snake.body[..|snake.body| - 1];
          assert forall i :: 0 <= i < |snake.body| ==> snake.body[i] in [h] + b;
        }
      }
    }
  }

  /** The rows of the start menu (src/main.rs:223). */
  const MAIN_MENU_ROWS: seq<(string, GameState)> :=
    [("Start Game", Run), ("High Scores", Scores), ("Help", Help), ("Quit", Exit)]

  /** Confirming a row of the start menu always leaves `Start`, and never
      jumps straight to `End`. */
  lemma MainMenuSelectLeavesStart(m: Menu<GameState>)
    requires m.items == MAIN_MENU_ROWS && m.InRange()
    ensures m.Select() in {Run, Scores, Help, Exit}
    ensures m.Select() != Start && m.Select() != End
    ensures m.Select() == Run <==> m.index == 0
  {
  }

  /** src/main.rs:229: Escape sends any state to `Start` before the frame's logic. */
  function AfterEscape(state: GameState, escape: bool): GameState
  {
    if escape then Start else state
  }

  /** The logic half of one iteration of the frame loop (src/main.rs:229-279).
      `escape` is whether Escape was pressed, `key` the key reported pressed
      this frame, and `draws` the random cells available to apple placement.
      The result is the game the loop continues with. */
  method Frame(game: Game, menu: Menu<GameState>, escape: bool, key: Option<Key>, draws: seq<Point>)
      returns (next: Game)
    requires menu.InRange()
    requires AllInGrid(draws)
    requires !escape && game.state == Run && game.WillEat(key) ==> HasFreeDraw(game.apple, [game.snake.head] + game.snake.body, draws)
    requires !escape && game.state == End && key.Some? ==> HasFreeDraw(CENTER, InitialBody(3), draws)
    modifies game, game.snake, menu
    ensures menu.InRange()
    ensures AfterEscape(old(game.state), escape) == Start ==>
              && next == game
              && (key == Some(Up) ==> menu.View() == old(menu.View()).(index := old(menu.PrevIndex())))
              && (key == Some(Down) ==> menu.View() == old(menu.View()).(index := old(menu.NextIndex())))
              && (key != Some(Up) && key != Some(Down) ==> menu.View() == old(menu.View()))
              && game.View() == old(game.View()).(state := if key == Some(Right) then old(menu.Select()) else Start)
    ensures AfterEscape(old(game.state), escape) == Run ==>
              next == game && game.RanFrame(key) && menu.View() == old(menu.View())
    ensures AfterEscape(old(game.state), escape) == End && key.None? ==>
              next == game && game.View() == old(game.View()) && menu.View() == old(menu.View())
    ensures AfterEscape(old(game.state), escape) == End && key.Some? ==>
              && fresh(next) && fresh(next.snake)
              && next.View() == GameView(CENTER, InitialBody(3), next.apple, 0, Run, Up, 0)
              && next.Playing()
              && game.View() == old(game.View()) && menu.View() == old(menu.View())
    ensures AfterEscape(old(game.state), escape) in {Help, Scores, Exit} ==>
              next == game && game.View() == old(game.View()) && menu.View() == old(menu.View())
  {
    next := game;
    if escape {
      game.state := Start;
    }
    match game.state {
      case Start =>
        match key {
          case Some(Up) => menu.Prev();
          case Some(Down) => menu.Next();
          case Some(Right) => game.state := menu.Select();
          case _ =>
        }
      case Help =>
      case Scores =>
      case Run =>
        game.RunFrame(key, draws);
      case End =>
        if key.Some? {
          next := new Game(draws);
          next.state := Run;
        }
      case Exit =>
    }
  }
}
