# Lorenz attractor: trajectory buffer and render loop

The Lorenz-Attractor demo integrates the Lorenz equations one explicit Euler
step per frame and draws the recent trajectory as a coloured polyline, seen
from a camera that orbits and looks at the newest point. Its only data
structure is the trajectory buffer, a `vector<Vector3>` that the render loop
grows by one point per frame and trims from the front once it holds more than
5000 points.

This project models that per-frame logic:

- `Trail` (trail.dfy): the buffer as values. `Push` is one frame's
  append-then-evict; `LastN` is the independent description of what the
  buffer should hold (the newest 5000 points produced, in order);
  `PushWindow` proves that `Push` keeps that description.
- `Euler` (euler.dfy): the sequence of simulation states over an abstract
  step function. The floating-point Euler update is not modelled; `step`
  stands for it.
- `LorenzLoop` (lorenz_loop.dfy): the loop itself. Class `Scene` holds the
  buffer (`points`, a `seq` the methods reassign, standing for the vector
  mutated in place) and the camera target, with a ghost `History` of every
  point produced; its invariant `Valid()` says the buffer is the newest `Cap`
  points of the history and the camera looks at the newest point. `Step` is
  the buffer update and camera aim, `Frame` adds the segment walk, and
  `RenderLoop` runs `frames` frames from the starting state.
  `SegmentWalk` returns the index pairs the drawing loop visits.

The drawing loop's bound `points.size() - 1` is an unsigned subtraction; it
cannot wrap around because it is only evaluated under the `points.size() > 1`
test, so the model uses plain integer subtraction there.

## Model

| member | source | states |
|---|---|---|
| `Trail.LastN` | Main.cpp:50-51 | the window kept by the buffer: exactly `Min(|s|, n)` elements, the last ones of `s`, in order |
| `Trail.Push` | Main.cpp:48-51 | one frame's update grows the buffer by one while it holds fewer than 5000 points and keeps its length once full, so a buffer within the cap stays within it; the new point is always last |
| `Trail.PushEvictsOnlyOldest` | Main.cpp:51 | eviction is FIFO: below the cap nothing is removed; at the cap exactly the oldest point (index 0) is removed and the rest keep their order, `Push(b, p) == b[1..] + [p]` |
| `Trail.PushWindow` | Main.cpp:48-51 | if the buffer holds the newest 5000 points of a history, after the update it holds the newest 5000 points of that history extended by the new point |
| `Euler.Orbit` | Main.cpp:37-46 | the states produced by `n` frames number exactly `n` |
| `Euler.IterateShift` | Main.cpp:40-46 | taking one step and then `n` more is the same as taking `n + 1` steps |
| `Euler.OrbitAt` | Main.cpp:37-48 | the point appended in frame `k` (from 0) is the state after `k + 1` steps from the initial state |
| `Euler.OrbitExtend` | Main.cpp:37-48 | one more frame appends the next state at the end of the produced sequence and changes nothing before it |
| `LorenzLoop.SegmentWalk` | Main.cpp:71-79 | the walk visits exactly `size - 1` pairs `(i, i + 1)` for `0 <= i < size - 1`, in order, when the buffer holds more than one point, and none otherwise; no index is out of bounds |
| `LorenzLoop.Scene.constructor` | Main.cpp:24-31 | the loop starts with an empty buffer, no points produced, and the zeroed camera target |
| `LorenzLoop.Scene.Step` | Main.cpp:48-60 | appends the new point and evicts the oldest past 5000 (`points == Push(old(points), p)`), records it in the history, aims the camera at it, and keeps the invariant that the buffer is the newest 5000 points produced with the camera on the last |
| `LorenzLoop.Scene.Frame` | Main.cpp:48-79 | a whole frame: the update of `Step`, then a segment walk of `size - 1` pairs `(k, k + 1)` over the updated buffer |
| `LorenzLoop.RenderLoop` | Main.cpp:15-88 | after `frames` frames from the empty buffer, the buffer is the newest `Min(frames, 5000)` states produced, in production order; the camera target is the state after `frames` steps (or the zeroed target if no frame ran); frame `k` draws `Min(k + 1, 5000) - 1` segments |
| `LorenzLoop.TrailAfterFrames` | Main.cpp:31-60 | after `n > 0` frames the buffer holds `Min(n, 5000)` points and its last point is the state after `n` steps |

## Left out

- The raylib calls (window creation and close, the close query that ends the loop, frame pacing at 60 frames per second, begin/end drawing, 3D mode, matrix push/pop, line width, `DrawLine3D`, `DrawText`, `DrawFPS`, `ClearBackground`): foreign library calls. The close query becomes the frame count `frames` of `RenderLoop`; the segment walk returns the pairs it would draw.
- The Lorenz Euler step (Main.cpp:40-46): floating-point arithmetic mixing `double` intermediates with `float` state, which a model over mathematical reals would not match. It is the abstract function `step`, so the constants sigma = 10, beta = 8/3, rho = 28, dt = 0.01 and the initial state (1, 1, 1) do not appear.
- The camera orbit position (Main.cpp:53-57): `cos`/`sin` of a `float` angle growing by 0.01 per frame; floating point and trigonometry. The fixed camera settings (up vector, field of view, projection) are not modelled either.
- The segment colour (Main.cpp:75): a float `fmod` of `hue + i * 0.1` and a foreign HSV conversion. `hue` is set once to 0 and never changed (Main.cpp:34), so the colour depends only on the segment index.
- `Vector3` is the type parameter `T` of the model; its coordinates are never inspected by the buffer logic.
