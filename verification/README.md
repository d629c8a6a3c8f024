# Circle program core in Dafny

This project models two pieces of the circle program as pure functions over
immutable data and proves properties of them.

- **The circle physics.** `Vec2` is the vector type. `Circle` is one disc: it
  moves, collides with another disc and is contained in the arena. The
  per-frame `update` of `CircleProgram` does three things in order:
  - it counts the frame and may spawn a body at the end of the list;
  - it moves every body;
  - it runs the pairwise pass. Each body collides with every later body and is
    then contained by `handleBounds`.
- **The buffer bookkeeping the circle drawer relies on.**
  - `AttributeContainer` holds interleaved vertex attributes. It covers the
    type sizes, the 4-byte rule, offsets as prefix sums, the `unsigned short`
    vertex size, capacity, per-attribute counters and the checks of
    `initialize`.
  - `IndexContainer` is an append-only list of 16-bit indices.
  - `IndexSet` records a draw mode, a count and a byte offset.
  - `CircleDrawer` builds the circle: 51 vertices, 52 fan indices, and the
    index set that draws them.

Modules and files:

| file | module | models |
|---|---|---|
| wrappers.dfy | `Wrappers` | `Result` and `Outcome`, for the calls that throw |
| vectors.dfy | `Vectors` | `Vec2` |
| circles.dfy | `Circles` | `Circle`: `move`, `collide`, `normalize`, `adjustVelocitiesAfterCollision`, `handleBounds`, `getSign`, `EPS` |
| schedule.dfy | `Schedule` | the loop order of `moveCircles` and `handleCollisions`, as a list of steps |
| world.dfy | `World` | `update`, `moveCircles`, `handleCollisions`, `addRandomCircle`, `random` |
| attributes.dfy | `Attributes` | `AttributeContainer` |
| indices.dfy | `Indices` | `IndexContainer` |
| index_sets.dfy | `IndexSets` | `IndexSet` |
| circle_fan.dfy | `CircleFan` | `CircleDrawer::createCircleSet`, `addCircleIndices`, the vertex count of `addCircleAttributes` |

How the model relates to the code:

- **Reals for doubles.** Doubles are modelled as `real`, so every algebraic
  identity is exact. The code only keeps these identities up to rounding.
- **Square root.** `std::sqrt` becomes a parameter `sqrt: real -> real`. Facts
  that need it to be a square root assume `Vectors.IsSqrt(sqrt)`.
- **Collisions as a parameter.** The world step takes its collision as a
  parameter `rule`. The only thing it assumes of the rule is `World.Lawful`:
  the rule applies to two bodies of positive mass and changes only their
  positions and velocities. The program's rule is
  `World.CollisionRule(sqrt)`, which is `collide`.
- **The frame as a schedule.** A frame is a schedule of steps (`Schedule.Step`)
  over list positions, applied in order by `World.Run`. Properties of the
  order are proved on the schedule. Properties of the result are proved on
  the run.
- **Random draws.** The random generator becomes a `World.Draws` value of
  eight numbers in `[0, 1)`. C++ leaves the evaluation order of function
  arguments unspecified. The model fixes it left to right: red, green, blue,
  radius, x, y, vx, vy.
- **Integer widths.** The frame counter is an `unsigned int`, so it counts
  modulo 2^32. The vertex size is an `unsigned short` and counts modulo 2^16.
  Indices are `GLushort`, so the fan's indices wrap modulo 2^16. All three
  wraps are written out.
- **Exceptions.** A call that throws returns `Failure` with the reason, or
  `Fail` for `initialize`'s checks.
- **Two functions not in the headers.** `getNumberOfVertices` and
  `getNumberOfIndices` do not appear in the headers. They are modelled as
  "the counter of attribute 0" (`CircleFan.NumberOfVertices`) and "the number
  of stored indices" (`Indices.NumberOfIndices`).

- **Standing assumptions of the frame.** `World.Update` requires every body
  to have positive mass (`World.Massive`), because the impulse divides by the
  masses. The program starts with an empty list, so this holds at first, and
  `World.Update` shows that every frame keeps it.
- **Containment needs a margin.** `handleBounds` states in a comment
  (circleProgram/Circle.h:66) that it assumes `radius <= xMax` and
  `radius <= yMax`. That assumption does not suffice: a disc with
  `radius == xMax` that crosses the wall is clamped to
  `sign(x)*(xMax - radius - EPS)`, which is `-EPS` or `EPS`, and still sticks
  out by `EPS` (`Circles.ContainmentNeedsMargin`). `World.UpdateContains`
  therefore assumes `radius + EPS <= xMax` and `radius + EPS <= yMax` for
  every body (`World.Fitting`), which is stronger than the comment by `EPS`.
  It shows that every frame keeps this assumption, provided the arena is at
  least `MAX_RADIUS + EPS` wide in each direction. The program sets
  `yMax = 1` and `xMax` to the window's aspect ratio, so the window must not
  be too narrow.

Behaviour of the code that a reader might not expect, all of it modelled as
written:

- **Containment is interleaved with the collisions.** Body `i` is contained
  right after its own row of collisions (circleProgram/CircleProgram.cpp:235-242),
  not after every pair has collided. Every collision that involves body `i`
  still comes before its containment, and nothing touches body `i`
  afterwards (`Schedule.ContainmentLast`).
- **The spawn ranges are half-open.** `random` computes `min + r*(max - min)`
  with `r` in `[0, 1)` (circleProgram/CircleProgram.cpp:269-271), so a
  spawned radius lies in `[MIN_RADIUS, MAX_RADIUS)` and each velocity
  component in `[-0.02, 0.02)`; the maximum is never reached.
- **The fallback separation can leave an overlap.** When the centres are
  within `EPS` of each other, `normalize` falls back to the normal `(1, 0)`
  (circleProgram/Circle.h:117-124). The push then guarantees only an
  x-offset of `r1 + r2 - EPS`, so the discs need not end `r1 + r2` apart:
  two unit discs `EPS` apart still overlap by `EPS` afterwards
  (`Circles.SeparateFallbackBound`, `Circles.SeparateFallbackLeavesOverlap`).
- **Containment tests only the position.** A disc just past the wall is
  clamped back to `xMax - radius - EPS` even when it is already moving
  inward; only its velocity is then left alone
  (circleProgram/Circle.h:70-77, `Circles.ContainAxis`).

## Model

| member | source | states |
|---|---|---|
| Vectors.SetX | circleProgram/Vec2.h:17-19 | `setX` replaces x and leaves y as it was |
| Vectors.SetY | circleProgram/Vec2.h:21-23 | `setY` replaces y and leaves x as it was |
| Vectors.Set | circleProgram/Vec2.h:33-36 | after `set(a, b)`, `getX()` is `a` and `getY()` is `b` whatever the vector held; it is the same as `setX(a)` followed by `setY(b)` |
| Vectors.Dot | circleProgram/Vec2.h:42-44 | `dot(other)` is 0 whenever either vector is the zero vector |
| Vectors.AddLinear | circleProgram/Vec2.h:46-49 | `+=` adds the components along every direction, is commutative, and adding the zero vector changes nothing |
| Vectors.DotSelf | circleProgram/Vec2.h:38-44 | `dot()` equals `dot(*this)` and is never negative |
| Vectors.DotSymmetric | circleProgram/Vec2.h:42-44 | `u.dot(v) == v.dot(u)` |
| Vectors.Sub | circleProgram/Vec2.h:56-59 | subtracting `w` gives the vector to which adding `w` returns the starting vector |
| Vectors.AddThenSubRestores | circleProgram/Vec2.h:46-59 | `+= w` followed by `-= w` restores the starting vector |
| Vectors.AddScaled | circleProgram/Vec2.h:51-54 | `add(a, v)` is `+=` of `v` scaled by `a`; `add(1, v)` is `+= v` and `add(0, v)` changes nothing |
| Vectors.Scal | circleProgram/Vec2.h:65-68 | `scal(1)` is the identity and `scal(0)` gives the zero vector |
| Vectors.ScalScalesDot | circleProgram/Vec2.h:65-68 | after `scal(d)`, `dot()` is multiplied by `d*d` |
| Vectors.Norm | circleProgram/Vec2.h:61-63 | with a true square root, `norm()` is non-negative and its square is `dot()` |
| Vectors.DotAddScaled | circleProgram/Vec2.h:51-54 | `add(k, n)` moves the component along `n` by `k * n.dot()` |
| Vectors.CrossAddScaled | circleProgram/Vec2.h:51-54 | `add(k, n)` leaves the component across `n` unchanged |
| Vectors.StretchAlongItself | circleProgram/Vec2.h:51-68 | moving `d` by `s` along its own unit direction makes its length grow by exactly `s` |
| Vectors.SqrtUnique | circleProgram/Vec2.h:61-63 | the non-negative root of a square is unique, so every square-root oracle measures the same lengths |
| Circles.Move | circleProgram/Circle.h:42-44 | `move` shifts the position by exactly the velocity; velocity, radius, mass, colour and depth are unchanged |
| Circles.Sign | circleProgram/Circle.h:108-115 | `getSign` is `+1` or `-1`, is `+1` at zero, and `sign(d) * d` is the absolute value of `d` |
| Circles.Normalize | circleProgram/Circle.h:117-124 | a length at most `EPS` gives `(1, 0)`; otherwise scaling the result back by the length gives `v`; the result is a unit vector whenever the length is the true length |
| Circles.ImpulseFacts | circleProgram/Circle.h:135-137 | the two velocity multipliers cancel in the momentum, and their difference reverses the approach speed |
| Circles.AdjustVelocities | circleProgram/Circle.h:126-139 | discs already separating keep their velocities; otherwise total momentum is conserved, the components across the normal are unchanged, and for a unit normal the relative normal speed is reversed |
| Circles.KineticEnergyConserved | circleProgram/Circle.h:126-139 | with a unit normal the velocity response conserves kinetic energy |
| Circles.EqualMassSwap | circleProgram/Circle.h:135-137 | equal masses with a unit normal exchange their normal velocity components |
| Circles.Push | circleProgram/Circle.h:55-56 | the two pushes of `+s/2` and `-s/2` keep the midpoint and grow the offset of the centres by `s` along the normal; only positions change |
| Circles.Separate | circleProgram/Circle.h:50-56 | discs that do not overlap, tangency included, are left alone; overlapping discs have their offset grown by the penetration plus `EPS` along the normal, with the midpoint kept |
| Circles.Resolve | circleProgram/Circle.h:50-58 | positions follow the separation; on an overlap the new velocities are `adjustVelocitiesAfterCollision` of the separated discs along the normalized offset; total momentum and midpoint are conserved, and each disc keeps its radius, mass, colour and depth |
| Circles.Collide | circleProgram/Circle.h:46-60 | `collide` changes nothing when the centres are at least `radius + other.radius` apart, tangency included; otherwise the positions are those of the separation, and the velocities are `adjustVelocitiesAfterCollision` along the offset normalized by `norm()`; momentum is conserved |
| Circles.ImpulseKeepsEnergy | circleProgram/Circle.h:126-139 | the impulse `dv2` and its mass-weighted counterpart keep the mass-weighted sum of squared speeds for a unit normal |
| Circles.ResponseKeepsEnergy | circleProgram/Circle.h:57-58 | the velocity response of the two pushed discs keeps their kinetic energy, and leaves separating discs' velocities alone |
| Circles.ResolveElastic | circleProgram/Circle.h:50-58 | with the true distance, resolving a pair keeps the total kinetic energy, and discs already separating along the normal keep their velocities |
| Circles.CollideElastic | circleProgram/Circle.h:46-60 | with a true square root, `collide` keeps the total kinetic energy, and discs already separating along the contact normal keep their velocities |
| Circles.SeparateExactly | circleProgram/Circle.h:49-56 | for an overlap whose centres are more than `EPS` apart, the centres end exactly `radius + other.radius + EPS` apart |
| Circles.SeparateFallbackOffset | circleProgram/Circle.h:117-124 | with the fallback normal the push is along `(1, 0)`, whatever the offset of the centres |
| Circles.SeparateFallbackBound | circleProgram/Circle.h:52-56 | after a fallback push, the x-offset of the centres is at least `radius + other.radius - EPS` |
| Circles.FallbackPushBound | circleProgram/Circle.h:52-56 | a fallback push of centres whose x-offset is at least `-len` leaves an x-offset of at least `radius + other.radius - EPS` |
| Circles.SeparateFallbackLeavesOverlap | circleProgram/Circle.h:52-56 | two unit discs `EPS` apart end `2 - EPS` apart: the fallback leaves an overlap of `EPS` |
| Circles.NormOfEps | circleProgram/Circle.h:47-49 | that pair's measured distance is exactly `EPS`, so the fallback branch is the one taken |
| Circles.ContainAxis | circleProgram/Circle.h:70-77 | a coordinate with `abs(x) + radius <= xMax` keeps its position and velocity; otherwise it becomes `sign(x)*(xMax - radius - EPS)` and the velocity is negated exactly when it points outward; under `radius + EPS <= xMax` the result is inside |
| Circles.HandleBounds | circleProgram/Circle.h:62-86 | both axes are contained independently; under the stated assumption the disc ends inside the arena; a disc already inside is unchanged |
| Circles.ContainmentNeedsMargin | circleProgram/Circle.h:66-77 | under the comment's own assumption `radius <= xMax`, a unit disc at `(1, 0)` in the arena of half-extent 1 ends at `x = -EPS` and is not inside |
| Circles.HandleBoundsIdempotent | circleProgram/Circle.h:62-86 | containing a contained disc again changes nothing |
| Schedule.Moves | circleProgram/CircleProgram.cpp:226-230 | `moveCircles` moves each body once, in list order |
| Schedule.Collisions | circleProgram/CircleProgram.cpp:238-240 | the inner loop collides body `i` with each later body, in list order |
| Schedule.Pass | circleProgram/CircleProgram.cpp:232-243 | the pass names only bodies of the list, pairs only in list order, and moves nothing |
| Schedule.CollisionScheduled | circleProgram/CircleProgram.cpp:233-240 | the pass collides `(a, b)` exactly when `a` comes strictly before `b` in the list |
| Schedule.ContainmentScheduled | circleProgram/CircleProgram.cpp:235-242 | every body of the list, and nothing else, is contained |
| Schedule.PassOrdered | circleProgram/CircleProgram.cpp:232-243 | the steps come row by row, and within a row by column, with containment closing the row |
| Schedule.PassOnce | circleProgram/CircleProgram.cpp:232-243 | no step occurs twice: each pair is collided exactly once |
| Schedule.ContainmentLast | circleProgram/CircleProgram.cpp:235-242 | nothing after a body's containment touches that body again |
| Schedule.MovesFirst | circleProgram/CircleProgram.cpp:221-230 | a frame first moves every body exactly once, in order, and moves nothing after that |
| World.CollisionRule | circleProgram/CircleProgram.cpp:239 | `collide` is a lawful rule: it applies to any two bodies of positive mass and keeps each one's radius, mass, colour and depth |
| World.ApplyStep | circleProgram/CircleProgram.cpp:226-243 | a step changes only the bodies it names, and only their positions and velocities |
| World.Run | circleProgram/CircleProgram.cpp:226-243 | running steps keeps the list length, every body's radius, mass, colour and depth, and positive masses |
| World.MoveCircles | circleProgram/CircleProgram.cpp:226-230 | each body moves by exactly its own velocity; its velocity, radius, mass, colour and depth are unchanged, and the list keeps its length |
| World.HandleCollisions | circleProgram/CircleProgram.cpp:232-243 | the pass keeps the list length and every body's radius, mass, colour and depth |
| World.Random | circleProgram/CircleProgram.cpp:269-271 | a draw in `[0, 1)` gives a value in `[min, max)`, or `min` when the range is empty |
| World.Spawn | circleProgram/CircleProgram.cpp:251-265 | the new body's mass is its radius squared, its radius lies in `[MIN_RADIUS, MAX_RADIUS)`, its colour is the three draws with alpha 1, and its depth is the default 0.5 |
| World.SpawnFacts | circleProgram/CircleProgram.cpp:260-264 | the velocity components lie in `[-0.02, 0.02)`, and `abs(x) + R <= xMax` and `abs(y) + R <= yMax` whenever the arena is at least `R` wide |
| World.AddRandomCircle | circleProgram/CircleProgram.cpp:251-267 | exactly one body is appended, and the existing bodies are unchanged |
| World.Tick | circleProgram/CircleProgram.cpp:214-219 | the counter is incremented modulo 2^32; a body is spawned, and the counter reset to 0, exactly when the new count exceeds `ADD_CIRCLE_DELAY` and space is held; positive masses are kept, and so is fitting when the arena is wide enough for the largest spawn |
| World.Update | circleProgram/CircleProgram.cpp:214-224 | `update` keeps the counter from the spawn decision, positive masses, and every body's radius, mass, colour and depth |
| World.RunAppend | circleProgram/CircleProgram.cpp:221-223 | running two schedules one after the other is running their concatenation |
| World.RunUntouched | circleProgram/CircleProgram.cpp:232-243 | a body that no step names comes out of a run unchanged |
| World.MovesAreMoveCircles | circleProgram/CircleProgram.cpp:226-230 | the scheduled moves compute `moveCircles` |
| World.FrameRunsPass | circleProgram/CircleProgram.cpp:221-223 | the frame's schedule is `handleCollisions` after `moveCircles` |
| World.UpdateRunsFrame | circleProgram/CircleProgram.cpp:214-224 | `update` runs the frame's schedule, moves first and then the pass, over the list after the optional spawn |
| World.ContainedBody | circleProgram/CircleProgram.cpp:241 | a body that fits the arena lies inside it right after its containment |
| World.PassContains | circleProgram/CircleProgram.cpp:232-243 | the pass from row `i` on leaves every body from `i` on inside the arena |
| World.HandleCollisionsContains | circleProgram/CircleProgram.cpp:232-243 | after `handleCollisions` every body that fits the arena lies inside it |
| World.UpdateContains | circleProgram/CircleProgram.cpp:214-224 | after `update` every body, a new spawn included, lies inside an arena wide enough for the largest spawn |
| Attributes.TypeSize | movingTriangle/AttributeContainer.h:136-148 | `getTypeSize` is 1 exactly for the byte types, 4 exactly for fixed and float, and 2 for the short types |
| Attributes.CheckDivisibleBy4 | movingTriangle/AttributeContainer.h:150-159 | a size passes exactly when it is a whole number of 4-byte chunks |
| Attributes.AddAttributeType | movingTriangle/AttributeContainer.h:30-41 | a type whose size is not a multiple of 4 is refused before anything changes; otherwise it is appended at offset `vertexSize`, and the vertex size grows by its size modulo 2^16 |
| Attributes.Reserve | movingTriangle/AttributeContainer.h:43-52 | `reserve` is refused while the vertex size is 0; otherwise the buffer has exactly `n * vertexSize` bytes for `n` vertices |
| Attributes.AdditionCheck | movingTriangle/AttributeContainer.h:161-174 | a value passes exactly when its count, the capacity and its component size all fit; a count mismatch is reported first, then a full attribute, then a component-size mismatch |
| Attributes.AddAttribute | movingTriangle/AttributeContainer.h:54-68 | a refused value leaves the check's error; an accepted one is written at `counter * vertexSize + offset`, and only that attribute's counter advances |
| Attributes.Initialize | movingTriangle/AttributeContainer.h:79-91 | `initialize` fails on an empty buffer, or when some attribute's counter differs from attribute 0's; it passes otherwise |
| Attributes.DeclaredPreserved | movingTriangle/AttributeContainer.h:30-52 | every reachable container has a type whenever it has a vertex size or a buffer, so `initialize` can read attribute 0 |
| Attributes.AppendKeepsLayout | movingTriangle/AttributeContainer.h:36-40 | an attribute placed at the end of the vertex keeps the offsets as prefix sums of the sizes |
| Attributes.AddAttributeTypeKeepsLayout | movingTriangle/AttributeContainer.h:36-40 | while the vertex size does not wrap, each offset is the sum of the sizes before it and the vertex size is the sum of all of them |
| Attributes.SizeOfFirstIncreases | movingTriangle/AttributeContainer.h:36-40 | prefix sums of the attribute sizes strictly increase |
| Attributes.OffsetsIncrease | movingTriangle/AttributeContainer.h:36-40 | in such a layout the offsets strictly increase in declaration order |
| Attributes.WithinVertex | movingTriangle/AttributeContainer.h:36-40 | in such a layout every attribute lies within the vertex |
| Attributes.WriteInBounds | movingTriangle/AttributeContainer.h:58-60 | if no type is declared after `reserve`, an accepted write lies inside the buffer |
| Attributes.SizeOfFirstUpdate | movingTriangle/AttributeContainer.h:54-68 | replacing an attribute by one of the same size keeps every prefix sum of the sizes |
| Attributes.WritesKeepLayout | movingTriangle/AttributeContainer.h:54-68 | an accepted `addAttribute` keeps the layout, the buffer sized for the vertex and the positive component sizes, so `WriteInBounds` applies to every later write too |
| Attributes.ReserveSizesBuffer | movingTriangle/AttributeContainer.h:30-52 | `reserve` sizes the buffer for the current vertex and keeps the layout; declaring a type keeps every component size positive |
| Attributes.Empty | movingTriangle/AttributeContainer.h:108-133 | a fresh container has no types and no buffer, satisfies every invariant above, and refuses `reserve` |
| Attributes.CountersStayBounded | movingTriangle/AttributeContainer.h:161-169 | adding values and declaring types keep every counter at most `maxVertices` |
| Attributes.ReserveBounds | movingTriangle/AttributeContainer.h:43-52 | after `reserve(n)` the counters are within capacity exactly when none exceeds `n` |
| Attributes.TypeAfterReserveOverruns | movingTriangle/AttributeContainer.h:50-60 | a type declared after `reserve` makes an accepted write run past the end of the buffer |
| Indices.NumberOfIndices | circleProgram/CircleDrawer.cpp:49 | the count the circle drawer reads is 0 exactly when nothing is stored |
| Indices.Reserve | movingTriangle/IndexContainer.h:21-23 | `reserve` leaves the stored indices as they are |
| Indices.Add | movingTriangle/IndexContainer.h:25-29 | `add` appends the given indices at the end, in order |
| Indices.AddFacts | movingTriangle/IndexContainer.h:25-29 | earlier indices are kept, the length grows by the list's size, the upload grows by 2 bytes per index, and `add({})` changes nothing |
| Indices.UploadBytes | movingTriangle/IndexContainer.h:50-59 | the uploaded buffer holds exactly the stored indices at 2 bytes each |
| Indices.ReserveKeepsUpload | movingTriangle/IndexContainer.h:21-23 | reserving changes neither the number of indices nor the upload |
| IndexSets.Default | circleProgram/IndexSet.h:13-42 | a default-constructed set has mode `TRIANGLE`, count 0, and starts at index 0 |
| IndexSets.Make | circleProgram/IndexSet.h:17-21 | the three-argument constructor stores its offset unscaled |
| IndexSets.SetMode | circleProgram/IndexSet.h:23-25 | `setMode` changes the mode only |
| IndexSets.SetNumberOfIndices | circleProgram/IndexSet.h:27-29 | `setNumberOfIndices` changes the count only |
| IndexSets.SetOffset | circleProgram/IndexSet.h:31-33 | `setOffset(offs)` stores the byte offset `2 * offs` and changes nothing else |
| IndexSets.SetOffsetFirstIndex | circleProgram/IndexSet.h:31-33 | the stored byte offset converts back to the index it was given |
| IndexSets.SettersIndependent | circleProgram/IndexSet.h:23-33 | setting a field twice keeps only the second value, and setters of different fields commute |
| IndexSets.ConstructorUnscaled | circleProgram/IndexSet.h:17-33 | building a set with the setters gives the constructor's set exactly when the offset is 0 |
| CircleFan.NumberOfVertices | circleProgram/CircleDrawer.cpp:48 | while every attribute has as many values as the first, the vertex count is each attribute's count |
| CircleFan.AddCircleAttributes | circleProgram/CircleDrawer.cpp:58-77 | the circle adds 51 vertices, each with a position and a colour, exactly when the declarations match and there is room; otherwise it fails with the error of the first refused value |
| CircleFan.AddCircleIndices | circleProgram/CircleDrawer.cpp:79-88 | the indices `nVertices` to `nVertices + 50` are appended, then `nVertices + 1`, all cast to 16 bits |
| CircleFan.FanShape | circleProgram/CircleDrawer.cpp:79-88 | 52 indices are appended, the first is `nVertices`, and the last equals the second, so the fan closes onto the first rim vertex |
| CircleFan.FanWithinAddedVertices | circleProgram/CircleDrawer.cpp:79-88 | below 2^16, the fan's indices are exactly the vertices the call added, each one named |
| CircleFan.FanWrapsPast16Bits | circleProgram/CircleDrawer.cpp:80-86 | past 2^16 the cast wraps, and the fan names vertex 0, which it did not add |
| CircleFan.CreateCircleSet | circleProgram/CircleDrawer.cpp:45-56 | the set's offset is the number of indices present before the call, its mode is a fan and its count is 52; vertices and indices are added as above; a refused attribute leaves its error |
| CircleFan.CircleSetDrawsFan | circleProgram/CircleDrawer.cpp:45-56 | the recorded set draws exactly the appended indices, and below 2^16 these name only the vertices the call added |
| CircleFan.FanKeepsCountersEqual | circleProgram/CircleDrawer.cpp:65-76 | with the position and colour attributes only, equal counters stay equal |

## Left out

- Floating point: doubles are reals, so rounding is not modelled. The `GLfloat` casts of colours and the rim coordinates (`cos`/`sin`) are not modelled.
- `std::sqrt` is a parameter, not a definition. Results about lengths assume it is a true square root.
- OpenGL calls are not modelled: buffer uploads, vertex attribute pointers, draw calls, shaders, uniforms and matrices. `initialize` is modelled only as far as its checks.
- The window, the event loop, rendering, the `std::atomic` flags and the render thread are not modelled. `space` is a plain boolean parameter of `update`.
- `NumberGenerator` is not modelled. Its draws in `[0, 1)` are the fields of `World.Draws`.
- `printData` and `printIndices` (console output) are not modelled.
- Attributes.AddAttribute: models where values go and how the counters move, but not the bytes written into the buffer.
- Attributes.Reserve: models the byte count `n * vertexSize` as an unbounded integer, so `size_t` overflow is not modelled. The data in the buffer is not modelled either, so shrinking a buffer loses nothing in the model.
- Attributes.AddAttribute: an index past the declared types is undefined behaviour in the code, so `index < |types|` is a precondition.
- Attributes.Initialize: requires `Declared(c)`, because with an empty type list the code reads attribute 0 out of range. `Attributes.DeclaredPreserved` shows that every reachable container satisfies this.
- CircleFan.AddCircleAttributes: on failure, returns only the error. The code has already added some values before the exception and leaves them in the container.
- CircleFan.CreateCircleSet: on failure, the partly updated index set and containers are not returned. It also requires two declared attribute types: with fewer, the code indexes past the type list.
- Indices.Reserve: models the reservation as a number. Allocation and reallocation are not modelled.
- IndexSets: `GLsizei` and `GLsizeiptr` overflow is not modelled. Counts and offsets are unbounded integers.
- Vectors.Add: `operator+=` has no contract of its own. Its properties are stated in the lemma `Vectors.AddLinear`, because `Add` occurs in nearly every vector proof and a contract on it would make each of those proofs much costlier.
- The destructor, copy semantics and ownership of `Circle` pointers in the list are not modelled. The list is a sequence of values.
