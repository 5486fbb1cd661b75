# Trail buffer of a 2D physics toy

This project models the bounded position history ("trail") that every body
of a small real-time 2D physics toy (a Rust program built on macroquad)
leaves behind it, and proves what that buffer promises.

A `Trail` holds a list of positions, oldest first, and a capacity
`max_length` fixed when it is created. `update` appends the body's newest
position and, once the list is longer than the capacity, removes the entry
at index 0. `draw` walks consecutive pairs of stored positions and draws one
line per pair.

The model (module `Trails`, file `trail.dfy`) follows that form:

- `Trail` is a class with a `seq` field `positions` and a `const` field
  `maxLength`, so no method can change the capacity. A ghost field
  `history` records every position ever pushed. It exists only in
  the proofs. The class invariant `Valid()` says the buffer holds at most
  `maxLength` entries and that they are the most recent part of `history`.
- `Update` appends and then evicts, as the Rust code does. Its
  postcondition gives the whole new contents.
- `Draw` is the read-only index loop. It returns the list of segments it
  would hand to the line-drawing primitive instead of drawing them. It has
  no `modifies` clause, so it cannot change the buffer.
- Pure functions give the specification. `Pushed` is one update,
  `PushAll` is a sequence of updates, `Recent` is an independent reference
  definition ("the last `min(n, c)` values"), and `Segments` is what
  drawing emits. The lemmas connect them.

Positions are the `Vec2d` value of `src/vec2d.rs` (module `Vectors`, file
`vec2d.dfy`), reduced to two `real` coordinates. The trail only stores and
returns them and never computes with them.

The code accepts any `usize` capacity, including 0, and draws every
segment 2.0 wide in white, with no fading. The model allows capacity 0 and
proves that the trail then always stays empty.

## Model

| member | source | states |
|---|---|---|
| `Trails.Trail.constructor` | src/trail.rs:12-17 | the new trail is empty, its capacity is exactly the argument (any natural number, 0 included), and the invariant holds |
| `Trails.Trail.Update` | src/trail.rs:19-24 | keeps the invariant that the length of `positions` is at most `maxLength`; the new contents are `old + [pos]` when there was room, `old[1..] + [pos]` when full (only the oldest entry is evicted), and empty when the capacity is 0; the new length is `min(old + 1, maxLength)`; with capacity at least 1 the newest entry is `pos`; the capacity is a constant |
| `Trails.Trail.Draw` | src/trail.rs:26-36 | returns exactly `max(n - 1, 0)` (with `n` the number of stored positions) segments, and segment `i - 1` joins `positions[i - 1]` to `positions[i]` for every `i` in `1..n`; it changes nothing |
| `Trails.PushedCases` | src/trail.rs:19-24 | for contents within the bound, one update appends, evicts only the oldest entry, or keeps nothing (capacity 0); the result is within the bound, has length `min(old + 1, maxLength)` and ends with `pos` when the capacity is positive |
| `Trails.PushedRecent` | src/trail.rs:19-24 | an update maps the last `c` entries of a history to the last `c` entries of that history extended by the pushed position |
| `Trails.PushAllRecent` | src/trail.rs:19-24 | from any contents within the bound, a sequence of updates leaves the most recent `maxLength` entries of the old contents followed by the pushed values |
| `Trails.FreshTrailKeepsMostRecent` | src/trail.rs:12-24 | after creating a trail with capacity `c` and pushing `p1, ..., pn`, it holds exactly `min(n, c)` entries, the most recent pushed values, oldest first |
| `Trails.SegmentsJoinNeighbours` | src/trail.rs:26-36 | the segment list of any position list has `max(n - 1, 0)` entries, and entry `i - 1` joins positions `i - 1` and `i` |

## Left out

- The vector arithmetic of `src/vec2d.rs` (addition, scaling, division, dot product, `norm`, `normalize`) is left out. It is `f32` floating-point arithmetic with `sqrt` and `powf`, and the trail never uses it.
- The `Display` formatting of `Vec2d` is output glue.
- `Body::new` in `src/main.rs` is left out. It draws random values and queries the screen size through the windowing library.
- `move_body`, `distance` and `handle_collision` in `src/main.rs` are left out. They are `f32` kinematics: `move_body` steps the position by `dt`, and `distance` and `handle_collision` use `powf`, `sqrt` and `norm`.
- `check_boundary_collision` in `src/main.rs` is left out. It is an `f32` sign flip whose bounds come from screen-size queries.
- The async frame loop `main` is left out. It is rendering and host plumbing. The method `Trails.TrailOverThreeTicks` only shows how a body's trail is created, updated and drawn over a few ticks.
- `Trails.Trail.Draw` returns the segments instead of calling macroquad's `draw_line`. The line width (2.0) and colour (white) of those calls are not modelled.
- `Trails.Trail.Update` reassigns the `positions` sequence. It does not model `Vec::remove(0)` shifting the elements in place, which only affects cost.
- `Trails.Trail.Update` does not model `usize` overflow of the length, nor the allocation-failure path of `Vec::push`. In the source the length cannot reach `usize::MAX`, because a `Vec` is limited to `isize::MAX` bytes and `push` panics ("capacity overflow") or aborts on allocation failure long before that; the model stores an unbounded `seq`. The only call site, `Trail::new(100)` in `src/main.rs`, stays far below that limit.
