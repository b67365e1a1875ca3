/**
 * The state of the shooter demo and its frame loop: the two object pools and
 * the kill counter, the spawn timer and the mouse latch of the loop, and the
 * fixed-size buffers the pools are copied into before drawing.  Everything the
 * frame reads from outside (the clock, the mouse, the camera, the random draws
 * that place a new enemy) arrives as a FrameInput.
 */
module Shooter {
  import opened Entities
  import opened Pools
  import opened Collision
  import opened DepthOrder

  /** What one frame reads from the outside world. */
  datatype FrameInput = FrameInput(
    time: real,             // the clock, in seconds
    leftButtonDown: bool,   // the left mouse button as last polled
    cameraPos: Vec3,        // the camera position
    aim: Vec3,              // the camera direction, already normalised
    spawnPos: Vec3,         // where a spawned enemy would be placed
    spawnQuaternion: Vec4,  // the rotation it would get
    spawnDist: real         // its distance to the camera
  )

  /** The far test of the demo: at the far distance from the camera or beyond. */
  predicate TooFar(cam: Vec3, p: Projectile)
  {
    SqDist(p.pos, cam) >= FarDistance * FarDistance
  }

  /** The projectiles that the far test keeps. */
  function WithinRange(cam: Vec3): (keep: Projectile -> bool)
  {
    p => !TooFar(cam, p)
  }

  /** Every projectile of `ps` after flying for `dt` seconds. */
  function Moved(ps: seq<Projectile>, dt: real): (r: seq<Projectile>)
    ensures |r| == |ps|
  {
    seq(|ps|, i requires 0 <= i < |ps| => Advance(ps[i], dt))
  }

  /** The projectile a click fires: from just in front of the camera, along the aim. */
  function Shot(input: FrameInput): (p: Projectile)
  {
    NewProjectile(input.cameraPos.Plus(input.aim), input.aim)
  }

  /**
   * What is left after the collision pass over `ps` and `es` and the three
   * removals: no pool grew, every object left is alive, every projectile
   * left is in range, and when every enemy was alive before the pass, the
   * enemies removed are exactly the kills.
   */
  lemma CleanUpOutcome(ps: seq<Projectile>, es: seq<Enemy>, cam: Vec3)
    ensures var out := Collisions(ps, es);
      var enemiesLeft := Keep(out.enemies, EnemyAlive);
      var projectilesLeft := Keep(Keep(out.projectiles, ProjectileAlive), WithinRange(cam));
      && |enemiesLeft| <= |es| && |projectilesLeft| <= |ps|
      && (forall k :: 0 <= k < |enemiesLeft| ==> enemiesLeft[k].life)
      && (forall k :: 0 <= k < |projectilesLeft| ==> projectilesLeft[k].life && !TooFar(cam, projectilesLeft[k]))
      && ((forall k :: 0 <= k < |es| ==> es[k].life) ==> out.kills + |enemiesLeft| == |es|)
  {
    var out := Collisions(ps, es);
    CollisionsOnlyKill(ps, es);
    if forall k :: 0 <= k < |es| ==> es[k].life {
      SurvivorsPlusKills(es, out.enemies);
    }
    KeepPreserves(out.enemies, EnemyAlive, _ => true);
    KeepPreserves(out.projectiles, ProjectileAlive, _ => true);
    KeepPreserves(Keep(out.projectiles, ProjectileAlive), WithinRange(cam), ProjectileAlive);
  }

  class Game {
    var enemies: seq<Enemy>
    var projectiles: seq<Projectile>
    var killedEnemyCount: nat
    var lastTime: real
    var createTime: real
    var mouseLeftPressed: bool
    var mouseLeftReleased: bool
    const enemyPositionData: array<Vec3>
    const enemyQuatData: array<Vec4>
    const projectilePositionData: array<Vec3>

    /**
     * The invariant of the frame loop: the buffers have the sizes of the
     * caps, the pools never exceed the caps, the two latch flags are each
     * other's negation, a press is latched only while another projectile
     * still fits, and between frames no dead object is left in a pool.
     */
    ghost predicate Valid()
      reads this
    {
      && enemyPositionData.Length == MaxEnemies
      && enemyQuatData.Length == MaxEnemies
      && projectilePositionData.Length == MaxProjectiles
      && enemyPositionData != projectilePositionData
      && |enemies| <= MaxEnemies
      && |projectiles| <= MaxProjectiles
      && mouseLeftPressed == !mouseLeftReleased
      && (mouseLeftPressed ==> |projectiles| < MaxProjectiles)
      && (forall k :: 0 <= k < |enemies| ==> enemies[k].life)
      && (forall k :: 0 <= k < |projectiles| ==> projectiles[k].life)
    }

    /** The state just before the first frame; `startTime` is the clock at that moment. */
    constructor (startTime: real)
      ensures Valid()
      ensures fresh(enemyPositionData) && fresh(enemyQuatData) && fresh(projectilePositionData)
      ensures enemies == [] && projectiles == [] && killedEnemyCount == 0
      ensures lastTime == startTime && createTime == 0.0
      ensures !mouseLeftPressed && mouseLeftReleased
    {
      enemies, projectiles, killedEnemyCount := [], [], 0;
      lastTime, createTime := startTime, 0.0;
      mouseLeftPressed, mouseLeftReleased := false, true;
      enemyPositionData := new Vec3[MaxEnemies](_ => Origin);
      enemyQuatData := new Vec4[MaxEnemies](_ => Zero4);
      projectilePositionData := new Vec3[MaxProjectiles](_ => Origin);
    }

    /** Every projectile flies for `deltaTime` seconds along its direction. */
    method MoveProjectiles(deltaTime: real)
      modifies this`projectiles
      ensures projectiles == Moved(old(projectiles), deltaTime)
      ensures forall i :: 0 <= i < |projectiles| ==> projectiles[i] == old(projectiles)[i].(pos := projectiles[i].pos)
    {
      for i := 0 to |projectiles|
        invariant |projectiles| == |old(projectiles)|
        invariant forall k :: 0 <= k < i ==> projectiles[k] == Advance(old(projectiles)[k], deltaTime)
        invariant forall k :: i <= k < |projectiles| ==> projectiles[k] == old(projectiles)[k]
      {
        projectiles := projectiles[i := Advance(projectiles[i], deltaTime)];
      }
    }

    /**
     * The inner loop of the collision pass for the live projectile at `i`:
     * every live enemy it overlaps is marked dead and counted, and the
     * projectile is marked dead as soon as it has killed one.
     */
    method Sweep(i: nat)
      requires i < |projectiles| && projectiles[i].life
      modifies this`projectiles, this`enemies, this`killedEnemyCount
      ensures var p, k := old(projectiles[i]), HitCount(old(enemies), old(projectiles[i]));
        && enemies == Strike(old(enemies), p)
        && killedEnemyCount == old(killedEnemyCount) + k
        && projectiles == old(projectiles)[i := if k == 0 then p else p.(life := false)]
    {
      ghost var p, es0, count0, ps0 := projectiles[i], enemies, killedEnemyCount, projectiles;
      var j := 0;
      while j < |enemies|
        invariant 0 <= j <= |enemies| == |es0|
        invariant forall k :: 0 <= k < j ==> enemies[k] == Struck(es0[k], p)
        invariant forall k :: j <= k < |es0| ==> enemies[k] == es0[k]
        invariant killedEnemyCount == count0 + HitCount(es0[..j], p)
        invariant projectiles == ps0[i := if HitCount(es0[..j], p) == 0 then p else p.(life := false)]
      {
        assert es0[..j + 1][..j] == es0[..j];
        if enemies[j].life {
          if Hits(enemies[j], projectiles[i]) {
            killedEnemyCount := killedEnemyCount + 1;
            enemies := enemies[j := enemies[j].(life := false)];
            projectiles := projectiles[i := projectiles[i].(life := false)];
          }
        }
        j := j + 1;
      }
      assert enemies == Strike(es0, p);
      assert es0[..j] == es0;
    }

    /**
     * Every live projectile, in order, kills every live enemy it overlaps and
     * is then marked dead itself; each kill is counted once.
     */
    method CheckCollision()
      modifies this`projectiles, this`enemies, this`killedEnemyCount
      ensures projectiles == Collisions(old(projectiles), old(enemies)).projectiles
      ensures enemies == Collisions(old(projectiles), old(enemies)).enemies
      ensures ProjectileFlagsOnlyFall(old(projectiles), projectiles)
      ensures EnemyFlagsOnlyFall(old(enemies), enemies)
      ensures killedEnemyCount == old(killedEnemyCount) + Collisions(old(projectiles), old(enemies)).kills
      ensures killedEnemyCount == old(killedEnemyCount) + Killed(old(enemies), enemies)
    {
      ghost var ps0, es0, count0 := projectiles, enemies, killedEnemyCount;
      var i := 0;
      while i < |projectiles|
        invariant 0 <= i <= |projectiles| == |ps0|
        invariant projectiles[..i] == Collisions(ps0[..i], es0).projectiles
        invariant projectiles[i..] == ps0[i..]
        invariant enemies == Collisions(ps0[..i], es0).enemies
        invariant killedEnemyCount == count0 + Collisions(ps0[..i], es0).kills
      {
        ghost var prev := Collisions(ps0[..i], es0);
        assert ps0[..i + 1][..i] == ps0[..i];
        assert projectiles[i] == ps0[i];
        if projectiles[i].life {
          Sweep(i);
        }
        assert projectiles[..i + 1] == prev.projectiles + [projectiles[i]];
        assert projectiles[i + 1..] == ps0[i + 1..];
        i := i + 1;
      }
      assert ps0[..i] == ps0;
      assert projectiles[..i] == projectiles;
      CollisionsOnlyKill(ps0, es0);
    }

    /** The enemy the random draws describe joins the end of the pool. */
    method CreateEnemy(pos: Vec3, quaternion: Vec4, dist: real)
      modifies this`enemies
      ensures enemies == old(enemies) + [NewEnemy(pos, quaternion, dist)]
    {
      enemies := enemies + [NewEnemy(pos, quaternion, dist)];
    }

    /** The enemy pool is rearranged so that the farthest enemies come first. */
    method SortEnemies()
      modifies this`enemies
      ensures multiset(enemies) == multiset(old(enemies))
      ensures FarFirst(enemies)
    {
      enemies := SortByDistance(enemies);
    }

    /**
     * Walking the pool from the back, every projectile at the far distance
     * from the camera or beyond is erased; the others stay in their order.
     */
    method DeleteFarProjectiles(cam: Vec3)
      modifies this`projectiles
      ensures projectiles == Keep(old(projectiles), WithinRange(cam))
    {
      ghost var ps0 := projectiles;
      var i := |projectiles|;
      while i > 0
        invariant 0 <= i <= |ps0|
        invariant projectiles == ps0[..i] + Keep(ps0[i..], WithinRange(cam))
      {
        i := i - 1;
        assert ps0[i..][1..] == ps0[i + 1..];
        assert ps0[..i + 1] == ps0[..i] + [ps0[i]];
        if TooFar(cam, projectiles[i]) {
          projectiles := projectiles[..i] + projectiles[i + 1..];
        }
      }
      assert ps0[0..] == ps0;
    }

    /**
     * The spawn timer runs down by `delta`; once it has run out and the enemy
     * pool is below its cap, one enemy is spawned, the timer is rewound and
     * the pool is sorted again.  While the pool is full the timer keeps
     * running down, so a spawn follows as soon as an enemy is removed.
     */
    method SpawnEnemies(delta: real, pos: Vec3, quaternion: Vec4, dist: real)
      modifies this`createTime, this`enemies
      ensures var due := old(createTime) - delta <= 0.0 && |old(enemies)| < MaxEnemies;
        && (due ==> createTime == SpawnInterval
                    && multiset(enemies) == multiset(old(enemies)) + multiset{NewEnemy(pos, quaternion, dist)}
                    && FarFirst(enemies))
        && (!due ==> createTime == old(createTime) - delta && enemies == old(enemies))
      ensures |enemies| == |old(enemies)| + (if old(createTime) - delta <= 0.0 && |old(enemies)| < MaxEnemies then 1 else 0)
      ensures |old(enemies)| <= MaxEnemies ==> |enemies| <= MaxEnemies
      ensures (forall k :: 0 <= k < |old(enemies)| ==> old(enemies)[k].life) ==> forall k :: 0 <= k < |enemies| ==> enemies[k].life
    {
      createTime := createTime - delta;
      if createTime <= 0.0 && |enemies| < MaxEnemies {
        CreateEnemy(pos, quaternion, dist);
        createTime := SpawnInterval;
        ghost var unsorted := enemies;
        SortEnemies();
        assert |enemies| == |multiset(enemies)| == |old(enemies)| + 1;
        forall k | 0 <= k < |enemies| && (forall m :: 0 <= m < |old(enemies)| ==> old(enemies)[m].life)
          ensures enemies[k].life
        {
          assert enemies[k] in multiset(unsorted);
          var m :| 0 <= m < |unsorted| && unsorted[m] == enemies[k];
        }
      }
    }

    /**
     * The single-click latch.  A press is latched only when the button is
     * up-latched, is down now, and another projectile fits; a latched press
     * fires one projectile from just in front of the camera when the button
     * is seen up again.
     */
    method HandleMouse(leftButtonDown: bool, cameraPos: Vec3, aim: Vec3)
      modifies this`mouseLeftPressed, this`mouseLeftReleased, this`projectiles
      ensures var fired := old(mouseLeftPressed) && !leftButtonDown;
        && projectiles == old(projectiles) + (if fired then [NewProjectile(cameraPos.Plus(aim), aim)] else [])
        && mouseLeftPressed == (!fired && (old(mouseLeftPressed)
             || (old(mouseLeftReleased) && leftButtonDown && |old(projectiles)| < MaxProjectiles)))
        && mouseLeftReleased == (fired || (old(mouseLeftReleased)
             && !(leftButtonDown && |old(projectiles)| < MaxProjectiles)))
    {
      if mouseLeftReleased && leftButtonDown && |projectiles| < MaxProjectiles {
        mouseLeftPressed := true;
        mouseLeftReleased := false;
      }
      if mouseLeftPressed && !leftButtonDown {
        mouseLeftPressed := false;
        mouseLeftReleased := true;
        projectiles := projectiles + [NewProjectile(cameraPos.Plus(aim), aim)];
      }
    }

    /** The position and rotation of every enemy are copied to the front of the enemy buffers. */
    method StageEnemies()
      requires Valid()
      modifies enemyPositionData, enemyQuatData
      ensures forall i :: 0 <= i < |enemies| ==>
        enemyPositionData[i] == enemies[i].pos && enemyQuatData[i] == enemies[i].quaternion
      ensures forall i :: |enemies| <= i < MaxEnemies ==>
        enemyPositionData[i] == old(enemyPositionData[i]) && enemyQuatData[i] == old(enemyQuatData[i])
    {
      for i := 0 to |enemies|
        invariant forall k :: 0 <= k < i ==>
          enemyPositionData[k] == enemies[k].pos && enemyQuatData[k] == enemies[k].quaternion
        invariant forall k :: i <= k < MaxEnemies ==>
          enemyPositionData[k] == old(enemyPositionData[k]) && enemyQuatData[k] == old(enemyQuatData[k])
      {
        enemyPositionData[i] := enemies[i].pos;
        enemyQuatData[i] := enemies[i].quaternion;
      }
    }

    /** The position of every projectile is copied to the front of the projectile buffer. */
    method StageProjectiles()
      requires Valid()
      modifies projectilePositionData
      ensures forall i :: 0 <= i < |projectiles| ==> projectilePositionData[i] == projectiles[i].pos
      ensures forall i :: |projectiles| <= i < MaxProjectiles ==>
        projectilePositionData[i] == old(projectilePositionData[i])
    {
      for i := 0 to |projectiles|
        invariant forall k :: 0 <= k < i ==> projectilePositionData[k] == projectiles[k].pos
        invariant forall k :: i <= k < MaxProjectiles ==> projectilePositionData[k] == old(projectilePositionData[k])
      {
        projectilePositionData[i] := projectiles[i].pos;
      }
    }

    /**
     * The end of a frame: the collision pass, then the removal of dead
     * enemies, of dead projectiles, and of far projectiles.  Afterwards every
     * object left is alive and every projectile is in range.
     */
    method CleanUp(cam: Vec3)
      modifies this`projectiles, this`enemies, this`killedEnemyCount
      ensures var out := Collisions(old(projectiles), old(enemies));
        && enemies == Keep(out.enemies, EnemyAlive)
        && projectiles == Keep(Keep(out.projectiles, ProjectileAlive), WithinRange(cam))
        && killedEnemyCount == old(killedEnemyCount) + out.kills
      ensures |enemies| <= |old(enemies)| && |projectiles| <= |old(projectiles)|
      ensures (forall k :: 0 <= k < |old(enemies)| ==> old(enemies)[k].life) ==>
        killedEnemyCount - old(killedEnemyCount) == |old(enemies)| - |enemies|
      ensures forall k :: 0 <= k < |enemies| ==> enemies[k].life
      ensures forall k :: 0 <= k < |projectiles| ==> projectiles[k].life && !TooFar(cam, projectiles[k])
    {
      CheckCollision();
      enemies := DeleteDestroyedObject(enemies, EnemyAlive);
      projectiles := DeleteDestroyedObject(projectiles, ProjectileAlive);
      DeleteFarProjectiles(cam);
      CleanUpOutcome(old(projectiles), old(enemies), cam);
    }

    /**
     * The first part of a frame: the clock is read, projectiles fly, the
     * spawn timer runs, and the mouse latch is updated.
     */
    method Update(input: FrameInput)
      requires Valid()
      modifies this`lastTime, this`createTime, this`enemies, this`projectiles,
               this`mouseLeftPressed, this`mouseLeftReleased
      ensures Valid()
      ensures lastTime == input.time && killedEnemyCount == old(killedEnemyCount)
      ensures var delta := input.time - old(lastTime);
        var fired := old(mouseLeftPressed) && !input.leftButtonDown;
        && projectiles == Moved(old(projectiles), delta) + (if fired then [Shot(input)] else [])
        && mouseLeftPressed == (!fired && (old(mouseLeftPressed)
             || (old(mouseLeftReleased) && input.leftButtonDown && |old(projectiles)| < MaxProjectiles)))
        && mouseLeftReleased == (fired || (old(mouseLeftReleased)
             && !(input.leftButtonDown && |old(projectiles)| < MaxProjectiles)))
      ensures var delta := input.time - old(lastTime);
        var due := old(createTime) - delta <= 0.0 && |old(enemies)| < MaxEnemies;
        && (due ==> createTime == SpawnInterval
                    && multiset(enemies) == multiset(old(enemies)) + multiset{NewEnemy(input.spawnPos, input.spawnQuaternion, input.spawnDist)}
                    && FarFirst(enemies))
        && (!due ==> createTime == old(createTime) - delta && enemies == old(enemies))
        && |enemies| == |old(enemies)| + (if due then 1 else 0)
    {
      var delta := input.time - lastTime;
      lastTime := input.time;
      MoveProjectiles(delta);
      SpawnEnemies(delta, input.spawnPos, input.spawnQuaternion, input.spawnDist);
      HandleMouse(input.leftButtonDown, input.cameraPos, input.aim);
    }

    /**
     * One pass of the frame loop, with everything but the pool bookkeeping
     * (matrices, buffer uploads, drawing, event polling) left out.  The pools
     * as they were drawn are returned as `drawnEnemies` and `drawnProjectiles`:
     * they are the pools after `Update`, they are what the staging buffers
     * hold, and the collision pass and the removals turn them into the new
     * pools.  The invariant is kept, so the writes into the fixed-size buffers
     * stay in bounds in every frame, and every enemy removed is one counted as
     * killed.
     */
    method Frame(input: FrameInput) returns (ghost drawnEnemies: seq<Enemy>, ghost drawnProjectiles: seq<Projectile>)
      requires Valid()
      modifies this, enemyPositionData, enemyQuatData, projectilePositionData
      ensures Valid()
      ensures lastTime == input.time
      ensures var delta := input.time - old(lastTime);
        var fired := old(mouseLeftPressed) && !input.leftButtonDown;
        && drawnProjectiles == Moved(old(projectiles), delta) + (if fired then [Shot(input)] else [])
        && mouseLeftPressed == (!fired && (old(mouseLeftPressed)
             || (old(mouseLeftReleased) && input.leftButtonDown && |old(projectiles)| < MaxProjectiles)))
        && mouseLeftReleased == (fired || (old(mouseLeftReleased)
             && !(input.leftButtonDown && |old(projectiles)| < MaxProjectiles)))
      ensures var delta := input.time - old(lastTime);
        var due := old(createTime) - delta <= 0.0 && |old(enemies)| < MaxEnemies;
        && (due ==> createTime == SpawnInterval
                    && multiset(drawnEnemies) == multiset(old(enemies)) + multiset{NewEnemy(input.spawnPos, input.spawnQuaternion, input.spawnDist)}
                    && FarFirst(drawnEnemies))
        && (!due ==> createTime == old(createTime) - delta && drawnEnemies == old(enemies))
        && |drawnEnemies| == |old(enemies)| + (if due then 1 else 0)
      ensures forall i :: 0 <= i < |drawnEnemies| ==>
        enemyPositionData[i] == drawnEnemies[i].pos && enemyQuatData[i] == drawnEnemies[i].quaternion
      ensures forall i :: 0 <= i < |drawnProjectiles| ==> projectilePositionData[i] == drawnProjectiles[i].pos
      ensures var out := Collisions(drawnProjectiles, drawnEnemies);
        && enemies == Keep(out.enemies, EnemyAlive)
        && projectiles == Keep(Keep(out.projectiles, ProjectileAlive), WithinRange(input.cameraPos))
        && killedEnemyCount == old(killedEnemyCount) + out.kills
      ensures |projectiles| <= |old(projectiles)| + 1
      ensures killedEnemyCount - old(killedEnemyCount) == |drawnEnemies| - |enemies|
      ensures forall k :: 0 <= k < |projectiles| ==> !TooFar(input.cameraPos, projectiles[k])
    {
      Update(input);
      StageEnemies();
      StageProjectiles();
      drawnEnemies, drawnProjectiles := enemies, projectiles;
      CleanUp(input.cameraPos);
    }
  }
}
