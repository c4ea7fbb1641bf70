# rsnake game logic in Dafny

A model of the simulation core of `rsnake`, a grid snake game written in
Rust on top of raylib, with the proofs of what that core guarantees.

- `main.dfy` (module `SnakeGame`, from `src/main.rs`): the 20 x 20 board,
  the snake (`Snake`, a head plus a body whose front is the cell the head
  just left), its one-cell move with wall and self-collision detection,
  apple placement by rejection sampling, the frame counter that lets the
  snake move once every `TICK_DELAY + 1` = 11 frames, and the per-frame
  state machine over `Start`, `Run`, `End`, `Help`, `Scores` and `Exit`
  (`Frame`, with the `Run` branch in `Game.RunFrame`).
- `menu.dfy` (module `Menus`, from `src/menu.rs`): the start-screen menu,
  a list of `(label, value)` rows with a highlighted index, an end policy
  (`Wrap` or `Clamp`) and two selection decorations.
- `scores.dfy` (module `ScoreTable`, from `src/scores.rs`): the high-score
  table, a map from player name to a 16-bit score that never overwrites a
  name.

`Snake`, `Game`, `Menu` and `Scores` are classes because the program
updates them in place; points, keys and states are datatypes. The random
number source is an oracle: `draws` is the sequence of cells
`get_random_value` would produce (two calls per cell), each on the board,
and a free draw is required only on the frames that place an apple (a
fresh game, or a step onto the apple, `Game.WillEat`). Input
is two parameters per frame: whether Escape was pressed and the key
reported pressed (`Option<Key>`, where every non-arrow key is `Other`).

Behaviour of the code as written that the names alone do not suggest:

- Menu navigation. `index_wrap` and `index_clamp` return the current index
  whenever the candidate is in range, not the candidate. So under `Wrap`
  the index moves only across the ends (last row to first, first row to
  last) and stays put everywhere else. Under `Clamp` a non-negative index
  never changes. `Menu.NextIndex` and `Menu.PrevIndex` state this.
- Empty menus. `Menu::new` builds a menu without rows, and `prev` under
  `Wrap` then sets the index to -1 (`EmptyWrapPrevLeavesRange`). Staying in
  range is proved for non-empty menus only.
- Tick cadence. The counter fires when it already equals `TICK_DELAY` and
  only then resets, so the snake moves once every `TICK_DELAY + 1` frames.
- Keys other than the arrows. The help text (src/main.rs:15) says the
  arrow keys move the snake. The frame loop stores any pressed key as the
  direction, and `mov` with a non-arrow key leaves the head on the cell it
  just pushed onto the body. A step taken while the stored direction is a
  non-arrow key is therefore always a collision (`NonArrowCollides`); an
  arrow pressed before the next step replaces it.

The model also shows a consequence of the frame loop as written. After a
collision, the game is only rebuilt by a key press in `End`. Escape and then
"Start Game" in the menu go back to `Run` with the dead snake, whose head
may be off the board. The wall check looks only at the coordinate that
moves, so such a head can keep moving off the board
(`OffBoardHeadSurvives`).

## Model

| member | source | states |
|---|---|---|
| `SnakeGame.Moved` | src/main.rs:131-157 | An arrow moves the head by exactly one cell in its own direction (Up decreases y, Down increases y, Left decreases x, Right increases x) and leaves the other coordinate alone; any other key does not move it. |
| `SnakeGame.HitsWall` | src/main.rs:132-155 | A wall hit always puts the moved head off the board; for a head on the board, the single-axis check is a hit exactly when the moved head leaves the board. |
| `SnakeGame.Collides` | src/main.rs:129-159 | The outcome `mov` reports as a death: a non-arrow key always collides; for a head on the board, a collision is exactly leaving the board or landing on the body grown by the old head; a survivor's new head is neither the old head nor any body cell. |
| `SnakeGame.NonArrowCollides` | src/main.rs:156-159 | A non-arrow key always ends in a collision, because the unmoved head equals the old head just pushed onto the body. |
| `SnakeGame.ReverseCollides` | src/main.rs:127-160 | Moving onto the first body segment (reversing into the neck) is a collision. |
| `SnakeGame.OffBoardHeadSurvives` | src/main.rs:144-159 | A head already off the board at `(5, -1)` that moves Left stays off the board, yet the move is not a collision, because only the x coordinate is checked. |
| `SnakeGame.InitialBody` | src/main.rs:113-120 | The body `Snake::new(len)` builds: `len - 1` segments (none for `len` 0) in the centre column, the first one directly below the head and each next one directly below the previous. |
| `SnakeGame.InitialLayoutAlive` | src/main.rs:106-125 | A starting snake of at most `GRID_SIZE / 2` cells lies on the board, its head is not on its body, and no body cell repeats. |
| `SnakeGame.InitialBodyOfThree` | src/main.rs:175 | The starting snake of length 3 has body `[(10,11), (10,12)]`. |
| `SnakeGame.Snake.constructor` | src/main.rs:106-125 | The head is at `(GRID_SIZE/2, GRID_SIZE/2)` and the body is `InitialBody(len)`: by that function's contract, `len - 1` segments (none for `len` 0) going straight down from the head, segment `i` at `(head.x, head.y + i + 1)`. |
| `SnakeGame.Snake.Mov` | src/main.rs:127-160 | Whatever the outcome, the body becomes the old head followed by the old body and the head moves by `Moved`; the result is false exactly on a wall hit or when the new head lies on that grown body. |
| `SnakeGame.NewApple` | src/main.rs:87-102 | The apple is on the board, not the head and not in the body, and it is the first draw of the random source that the snake does not occupy. |
| `SnakeGame.TickCounter` | src/main.rs:187-197 | The counter stays within `0..TICK_DELAY`, and it returns to 0 exactly from `TICK_DELAY`. |
| `SnakeGame.Game.Tick` | src/main.rs:187-197 | Fires exactly when the counter equals `TICK_DELAY`; the counter then resets to 0, and otherwise it is incremented. |
| `SnakeGame.CounterAfterIsRemainder` | src/main.rs:187-197 | After `n` calls from a fresh game the counter is `n mod (TICK_DELAY + 1)`, hence always within `0..TICK_DELAY`. |
| `SnakeGame.NthCallFires` | src/main.rs:187-197 | Call number `n` fires exactly when `n` is a multiple of `TICK_DELAY + 1`. |
| `SnakeGame.FiresOncePerPeriod` | src/main.rs:187-197 | Among the first `n` calls, exactly `n / (TICK_DELAY + 1)` fire. |
| `SnakeGame.Game.constructor` | src/main.rs:173-184 | A fresh snake of length 3 at the centre, an apple on a free cell, counter 0, state `Start`, direction Up, score 0; the game is in play (`Playing`). |
| `SnakeGame.Game.RunFrame` | src/main.rs:253-269 | `RanFrame`: the direction becomes the pressed key, or stays if none. The counter advances. On a non-firing frame nothing else changes. On a collision the state becomes `End` and the score and apple are kept. On eating, the score rises by 1, the body keeps the pushed old head (length + 1), and the new apple is free of the moved snake. Otherwise the tail is popped (length unchanged). A game in play stays in play unless it ended. A free draw is required only when `WillEat` holds. |
| `SnakeGame.MainMenuSelectLeavesStart` | src/main.rs:223 | On the start menu's four rows, confirming any in-range row yields `Run`, `Scores`, `Help` or `Exit`, never `Start` or `End`, and yields `Run` exactly on row 0. |
| `SnakeGame.Frame` | src/main.rs:229-279 | Escape (`AfterEscape`) sends any state to `Start` before the frame's logic and keeps the game's progress (snake, apple, counter, score). Then: in `Start`, Up calls `prev`, Down calls `next`, Right sets the state to `Select()`, the value paired with the highlighted row (a read-only function; its `requires InRange()` stands for the `unwrap`), other keys change nothing. In `Run` the frame is `RanFrame`. In `End`, any key yields a fresh game in `Run` with score 0 that is in play, and no key changes nothing. `Help`, `Scores` and `Exit` change nothing. The menu index stays in range. Free draws are required only for an eating `Run` frame or a restart. |
| `Menus.Toggled` | src/menu.rs:69-84 | The switched policy differs from the current one. |
| `Menus.ToggledTwice` | src/menu.rs:69-84 | Switching the policy twice restores it. |
| `Menus.Menu.New` | src/menu.rs:39-49 | Index 0, decorations `"> "` and `" <"`, policy `Wrap`, no rows, font size 40, colour RAYWHITE. |
| `Menus.Menu.From` | src/menu.rs:51-67 | As `New` but with the given rows; with at least one row the index is in range. |
| `Menus.Menu.ChangeEndBehavior` | src/menu.rs:69-84 | Swaps `Wrap` and `Clamp` and changes no other field. |
| `Menus.Menu.SetFontSize` | src/menu.rs:86-91 | Replaces the font size and changes no other field. |
| `Menus.Menu.SetColor` | src/menu.rs:93-98 | Replaces the colour and changes no other field. |
| `Menus.Menu.SetSelectionIndicators` | src/menu.rs:100-106 | Replaces both decorations and changes no other field. |
| `Menus.Menu.IndexClamp` | src/menu.rs:108-114 | The result is the current index or 0, and only a negative candidate changes the index; an in-range index stays in range. |
| `Menus.Menu.IndexWrap` | src/menu.rs:116-125 | The result is the current index, the first row or the last row. Only an out-of-range candidate changes the index: a candidate past the end gives 0 and a negative candidate gives the last row. An in-range index stays in range. |
| `Menus.Menu.NextIndex` | src/menu.rs:127-132 | Under `Wrap`: from the last row, 0; from any other row, unchanged. Under `Clamp`: never changes an index of -1 or more. An in-range index stays in range. |
| `Menus.Menu.PrevIndex` | src/menu.rs:134-139 | Under `Wrap`: from 0, the last row; from any other row, unchanged. Under `Clamp`: never changes a non-negative index. An in-range index stays in range. |
| `Menus.Menu.Next` | src/menu.rs:127-132 | Stores `NextIndex` and changes no other field; keeps the index in range. |
| `Menus.Menu.Prev` | src/menu.rs:134-139 | Stores `PrevIndex` and changes no other field; keeps the index in range. |
| `Menus.EmptyWrapPrevLeavesRange` | src/menu.rs:116-125 | On an empty menu under `Wrap`, `prev` from index 0 gives -1. |
| `ScoreTable.Scores.NewScore` | src/scores.rs:10-17 | A name already present gives `Err` and leaves the map unchanged. A new name gives `Ok` and maps that name to the score. The key set grows by that name only. No existing entry changes, and afterwards the name is present. |
| `ScoreTable.Scores.NewScoreTwice` | src/scores.rs:10-17 | A second recording under the same name is always refused, and the first score stays. |

## Left out

- Rendering: `draw_grid_rect`, the drawing half of the frame loop (src/main.rs:282-342) and `Menu::draw` are raylib calls with font metrics and float layout.
- Window and input plumbing (`init`, `set_target_fps`, `window_should_close`, `is_key_pressed`, `get_key_pressed`): input is the `escape` flag and the `key` option given to `Frame`. A frame where several keys are pressed is reduced to one reported key.
- The `running` flag and the `Exit` branch that clears it are host loop control; in the model `Exit` changes nothing.
- `get_random_value` is a raylib call; it becomes the `draws` oracle. The model does not show that the source's rejection loop terminates, because it only does so with probability 1. Instead, callers require a free draw to exist.
- `Apple::new` on a full board: the source loops forever there. The model makes this case a precondition.
- `Game::new` clones the snake only to borrow it for apple placement. The model builds a single snake object.
- The builders `change_end_behavior` and `set_*` consume the menu and return an updated copy. The consumed value is unreachable afterwards, so they are modelled as in-place updates of the class.
- Menu rows hold boxed closures in the source, which do not type-check. A row is modelled as a `(label, value)` pair, and `select` returns the value.
- `Menus.Menu.Select`: a plain definition (the value of row `index`, read without changing anything) with no contract of its own beyond `requires InRange()`, which replaces the panic of `unwrap` on an out-of-range index; its use is stated in `SnakeGame.Frame` and `SnakeGame.MainMenuSelectLeavesStart`.
- Font size and colour are carried only so the setters can be stated; `Color` is an RGBA record.
- 32-bit integers: the score, the menu index, head coordinates and the `len as i32` cast in `Snake::new` are unbounded integers. Overflow cannot happen in any realistic session. The one unbounded path is a dead head off the board that is resumed repeatedly (`End`, Escape, "Start Game") and moves one cell further out each time; reaching the 32-bit limit would take about two billion such cycles. Scores in the table keep their 16-bit range.
- The unused `MenuIndex` and `EndBehavior` in src/main.rs:45-67 and the unused `ALPHABET` constant in src/scores.rs:3 duplicate other code or are dead.
