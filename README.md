# Shooter demo: pool bookkeeping, modelled in Dafny

The shooter demo (`homework2/homework2.cpp`) keeps two growable pools of game
objects: enemies and projectiles. Every frame it does the following:

- advances the clock and moves the projectiles;
- spawns an enemy on a three-second timer, up to a cap of 20, and then re-sorts
  the enemies far-first for drawing;
- fires one projectile per press-and-release of the left mouse button, up to a
  cap of 50;
- copies the pools into fixed-size staging buffers sized by those caps;
- after drawing, runs a collision pass that marks enemies and projectiles dead
  and counts kills;
- erases the dead objects and the projectiles that are too far from the camera.

This project models that bookkeeping and proves what it guarantees:

- the removal loops keep exactly the survivors, in their original order;
- the collision pass only lowers `life` flags, counts every kill exactly once,
  and kills only on an overlap with a projectile that was alive when the pass
  started;
- the sort returns a far-first permutation of the pool;
- the frame loop keeps both pools within their caps, so every staging write is
  in bounds.

Files and modules:

- `entities.dfy`, module `Entities`: the `Enemy` and `Projectile` records, the
  constants, squared distance, and projectile motion.
- `pools.dfy`, module `Pools`: `Keep`, the order-preserving filter, and the
  backward erase loop `DeleteDestroyedObject`, which is proved against it.
- `collision.dfy`, module `Collision`: `Collisions`, a function that gives the
  result of the collision pass, and the lemmas about it.
- `ordering.dfy`, module `DepthOrder`: the depth order and the sort.
- `game.dfy`, module `Shooter`: class `Game`. Its fields are the global pools,
  the kill counter, the frame loop's timer and mouse-latch variables, and the
  three staging arrays. Its methods are the operations of the demo. Each one
  states the new state it produces in terms of the functions above (`Moved`,
  `Collisions`, `Keep`, the depth order). `Game.Valid()` is the frame-loop
  invariant. `Game.Frame` also returns, as ghost values, the pools as they
  were drawn, and states how the new pools come from them.

The geometry is exact arithmetic over `real`. The collision test "distance ≤
sum of radii" is stated as "sum of radii ≥ 0 and squared distance ≤ (sum of
radii)²". The far test "distance ≥ 35" is stated as "squared distance ≥ 35²".
Over the reals both rewritings are equivalent to the originals, because a
distance is never negative.

## Model

| member | source | states |
|---|---|---|
| `Entities.AdvanceAdditive` | homework2/homework2.cpp:73-77 | flying for dt1 and then dt2 is the same as flying for dt1 + dt2, and flight leaves `life`, `direction`, `speed` and the collider radius unchanged |
| `Pools.Keep` | homework2/homework2.cpp:98-106 | the filtered pool is never longer than the original |
| `Pools.KeepPreserves` | homework2/homework2.cpp:98-116 | every survivor satisfies the filter, and any property that held of every element of the pool still holds of every survivor |
| `Pools.KeepSelectsInOrder` | homework2/homework2.cpp:98-116 | the filtered pool is exactly the elements at the positions where the filter holds, taken in increasing position order: each selected position satisfies the filter, each position that satisfies it is selected, and relative order is preserved |
| `Pools.KeepIdempotent` | homework2/homework2.cpp:98-106 | filtering a pool that was already filtered changes nothing, so a second removal pass removes nothing |
| `Pools.KeepShrinks` | homework2/homework2.cpp:108-116 | the pool keeps its length exactly when every element passes the filter; otherwise it gets shorter |
| `Pools.DeleteDestroyedObject` | homework2/homework2.cpp:98-106 | the backward erase loop returns exactly the filtered pool: the live elements in their original order |
| `Collision.Collisions` | homework2/homework2.cpp:79-96 | the collision pass keeps the lengths of both pools |
| `Collision.StrikeKills` | homework2/homework2.cpp:84-93 | one projectile's sweep only lowers flags of live enemies, and the number it lowers equals the number of live enemies the projectile overlaps |
| `Collision.KilledChain` | homework2/homework2.cpp:84-90 | across two passes that only lower flags, the kills add up: an enemy already dead after the first pass is never counted again |
| `Collision.CollisionsOnlyKill` | homework2/homework2.cpp:79-96 | the pass changes no field except `life`, only turns live objects dead in both pools, and its kill count equals the number of enemies whose flag went from true to false |
| `Collision.KillNeedsLiveHit` | homework2/homework2.cpp:80-93 | an enemy that dies in the pass overlaps some projectile that was alive when the pass started; a dead projectile kills nothing |
| `Collision.SurvivorsAreClear` | homework2/homework2.cpp:80-93 | no enemy that survives the pass overlaps any projectile that was alive when the pass started |
| `Collision.ShotNeedsKill` | homework2/homework2.cpp:89-92 | a projectile dies in the pass only by overlapping an enemy that dies in the same pass |
| `Collision.KillsCoverSpentShots` | homework2/homework2.cpp:89-92 | the number of projectiles spent in the pass is at most the number of kills |
| `Collision.OneShotTwoKills` | homework2/homework2.cpp:84-93 | because a projectile's own flag is not rechecked during its sweep, one projectile kills two overlapping enemies in one pass and both kills are counted |
| `Collision.SurvivorsPlusKills` | homework2/homework2.cpp:523-524 | when every enemy was alive before the pass, the enemies still alive plus the kills add up to the whole pool, so the removal step removes exactly the counted enemies |
| `DepthOrder.SortByDistance` | homework2/homework2.cpp:41-44 | the sorted pool is a permutation of the input (equal multisets) and no enemy is strictly nearer than one that comes after it |
| `Shooter.Game.constructor` | homework2/homework2.cpp:69-71 | the state before the first frame: empty pools and zero kills (the globals at :69-71); `last_time` at the clock's start value, spawn timer at 0 and mouse latch released (:327-330); staging buffers of sizes 20, 20 and 50 (:212-214); and the invariant holds |
| `Shooter.Game.MoveProjectiles` | homework2/homework2.cpp:73-77 | the pool becomes `Moved(pool, dt)`: each projectile is advanced by `direction * speed * dt`, in place; the pool length and every field except `pos` are unchanged |
| `Shooter.Game.Sweep` | homework2/homework2.cpp:84-93 | for one live projectile, the enemy pool becomes that projectile's sweep; the counter rises by the number of live enemies it overlaps; the projectile is marked dead exactly when that number is positive, and no other projectile changes |
| `Shooter.Game.CheckCollision` | homework2/homework2.cpp:79-96 | the pools become exactly those given by `Collisions`; only `life` flags change, and only from true to false; the counter rises by exactly the number of enemies whose flag fell; nothing else in the state changes |
| `Shooter.Game.CreateEnemy` | homework2/homework2.cpp:137 | the new enemy (alive, radius 1) is appended to the end of the pool |
| `Shooter.Game.SortEnemies` | homework2/homework2.cpp:118-120 | the enemy pool becomes a far-first permutation of itself |
| `Shooter.Game.DeleteFarProjectiles` | homework2/homework2.cpp:108-116 | the pool becomes exactly the projectiles whose distance to the camera is below 35, in their original order |
| `Shooter.Game.SpawnEnemies` | homework2/homework2.cpp:346-351 | the timer runs down by `delta`; an enemy is added, the timer is reset to 3 and the pool re-sorted exactly when the timer has reached 0 or below and fewer than 20 enemies exist; otherwise the pool is unchanged; the cap of 20 is kept |
| `Shooter.Game.HandleMouse` | homework2/homework2.cpp:354-366 | a press is latched only when the latch is released, the button is down and fewer than 50 projectiles exist; a projectile is fired exactly when a latched press sees the button up, and then the latch is released; at most one projectile is added per call |
| `Shooter.Game.StageEnemies` | homework2/homework2.cpp:369-373 | the first `|enemies|` slots of the enemy position and rotation buffers hold the pool's positions and rotations, and the other slots are untouched |
| `Shooter.Game.StageProjectiles` | homework2/homework2.cpp:375-378 | the first `|projectiles|` slots of the projectile position buffer hold the pool's positions, and the other slots are untouched |
| `Shooter.CleanUpOutcome` | homework2/homework2.cpp:523-526 | after the collision pass and the three removals, no pool has grown, every object left is alive, every projectile left is within 35 of the camera, and when every enemy was alive before the pass, the kills plus the enemies left equal the enemies before |
| `Shooter.Game.CleanUp` | homework2/homework2.cpp:523-526 | after the collision pass and the three removals, the pools are the filtered results of the pass; the counter rose by the pass's kills; no pool grew; every object left is alive and every projectile is in range; if every enemy was alive before, the counter rose by exactly the number of enemies removed |
| `Shooter.Game.Update` | homework2/homework2.cpp:340-366 | the first half of a frame keeps the invariant and gives the whole new state. The clock becomes the input time. The projectiles become the old ones moved by `delta`, followed by one new shot exactly when a latched press sees the button up. The latch flags follow the two mouse tests. When a spawn is due, the timer is reset to 3 and the enemies become a far-first permutation of the old pool plus the new enemy; otherwise the timer runs down by `delta` and the enemies are unchanged. The kill counter is unchanged |
| `Shooter.Game.Frame` | homework2/homework2.cpp:340-526 | one frame keeps the invariant: pools within 20 and 50, latch flags each other's negation, a latched press only while a projectile fits, and no dead object between frames. This makes every staging write in bounds. The pools as drawn are those `Update` describes, and the staging buffers hold their positions and rotations. The new pools are the drawn pools after `Collisions` and the three removals, and the counter rises by the pass's kills. At most one projectile is added per frame, each enemy removed is counted as a kill, and every projectile left is in range. The timer and the latch end as `Update` leaves them |

## Left out

- The OpenGL, GLEW and GLFW calls are not part of this model: window and
  context setup, shader, texture and OBJ loading, buffer creation and uploads
  (including the byte counts passed at homework2/homework2.cpp:380-390),
  attribute binding, drawing and event polling.
- homework1_1/homework1_1.cpp is not part of this model. It only draws two
  triangles under an orbiting camera.
- Floating point is not modelled. Positions, times and distances are exact
  reals, and the `float(delta)` conversion is ignored.
- Shooter.Game.CreateEnemy: the `rand()` draws, the `normalize` and the
  `sin`/`cos` quaternion of the `Enemy` constructor are replaced by the
  position, rotation and camera distance they produce, which arrive as
  inputs. The model does not check that the cached distance is the distance
  to the camera.
- The camera (`getCameraPosition`, `getCameraDirection`,
  `computeMatricesFromInputs`), the clock (`glfwGetTime`) and the mouse
  (`glfwGetMouseButton`) arrive as a `FrameInput`.
  - The camera position is taken as constant within a frame; the demo re-reads
    it inside the far-projectile loop.
  - The mouse button is one value per frame, since nothing polls events
    between the two reads in a frame.
  - The projectile direction is given already normalised.
- The console message printed when a projectile is fired is left out (output
  only).
- `KilledEnemyCount` is a 32-bit `GLint` in the demo. The model counts with an
  unbounded `nat` and does not model overflow.
- DepthOrder.SortByDistance: an insertion sort stands in for the standard
  library sort, whose algorithm is not part of this model. Both promise a
  permutation ordered by the comparison, and neither fixes the order of enemies
  at equal distances.
- Pools.DeleteDestroyedObject: the demo passes the vector by reference. The
  model passes the pool in and returns it, and the caller stores it back into
  the field. No aliasing is involved.
- The escape-key and window-close test that ends the frame loop is left out.
  A run of the loop is a sequence of `Game.Frame` calls.
