/**
 * The collision pass of the demo, as a function of the two pools it reads,
 * and what that pass guarantees: flags only fall, the kill counter matches
 * the flags that fell, an enemy dies only when a projectile that was alive
 * at the start of the pass overlaps it, and no survivor overlaps one.
 */
module Collision {
  import opened Entities
  import opened Pools

  /**
   * The sphere test: the distance between the centres is at most the sum of
   * the two collider radii.  A distance is never negative, so this is the
   * squared comparison together with a non-negative radius sum.
   */
  predicate Hits(e: Enemy, p: Projectile)
  {
    var r := e.colliderRad + p.colliderRad;
    0.0 <= r && SqDist(e.pos, p.pos) <= r * r
  }

  /** One step of the inner loop: a live enemy that `p` overlaps is marked dead. */
  function Struck(e: Enemy, p: Projectile): (r: Enemy)
  {
    if e.life && Hits(e, p) then e.(life := false) else e
  }

  /** The inner loop over the whole enemy pool for one live projectile. */
  function Strike(es: seq<Enemy>, p: Projectile): (r: seq<Enemy>)
    ensures |r| == |es|
  {
    seq(|es|, j requires 0 <= j < |es| => Struck(es[j], p))
  }

  /** The number of live enemies that `p` overlaps. */
  function HitCount(es: seq<Enemy>, p: Projectile): (n: nat)
  {
    if es == [] then 0
    else HitCount(es[..|es| - 1], p) + (if es[|es| - 1].life && Hits(es[|es| - 1], p) then 1 else 0)
  }

  /** The number of positions whose enemy was alive in `before` and is dead in `after`. */
  function Killed(before: seq<Enemy>, after: seq<Enemy>): (n: nat)
    requires |before| == |after|
  {
    if before == [] then 0
    else
      var n := |before| - 1;
      Killed(before[..n], after[..n]) + (if before[n].life && !after[n].life then 1 else 0)
  }

  /** `after` is `before` with some live enemies marked dead and nothing else changed. */
  ghost predicate EnemyFlagsOnlyFall(before: seq<Enemy>, after: seq<Enemy>)
  {
    && |before| == |after|
    && forall j :: 0 <= j < |before| ==>
         after[j] == before[j] || (before[j].life && after[j] == before[j].(life := false))
  }

  /** `after` is `before` with some live projectiles marked dead and nothing else changed. */
  ghost predicate ProjectileFlagsOnlyFall(before: seq<Projectile>, after: seq<Projectile>)
  {
    && |before| == |after|
    && forall i :: 0 <= i < |before| ==>
         after[i] == before[i] || (before[i].life && after[i] == before[i].(life := false))
  }

  /** The pools after a collision pass, and the number of kills it counted. */
  datatype Outcome = Outcome(projectiles: seq<Projectile>, enemies: seq<Enemy>, kills: nat)

  /**
   * The collision pass over the projectiles `ps`, in order, against the
   * enemies `es`.  A projectile that is dead when its turn comes is skipped;
   * a live one kills every live enemy it overlaps and is itself marked dead
   * if it killed at least one.  Its flag is not consulted again during its
   * own sweep, so one projectile can kill several enemies.
   */
  function Collisions(ps: seq<Projectile>, es: seq<Enemy>): (out: Outcome)
    ensures |out.projectiles| == |ps| && |out.enemies| == |es|
  {
    if ps == [] then Outcome([], es, 0)
    else
      var prev := Collisions(ps[..|ps| - 1], es);
      var p := ps[|ps| - 1];
      if !p.life then Outcome(prev.projectiles + [p], prev.enemies, prev.kills)
      else
        var k := HitCount(prev.enemies, p);
        Outcome(prev.projectiles + [if k == 0 then p else p.(life := false)],
                Strike(prev.enemies, p), prev.kills + k)
  }

  /** The number of projectiles that were alive in `before` and are dead in `after`. */
  function Spent(before: seq<Projectile>, after: seq<Projectile>): (n: nat)
    requires |before| == |after|
  {
    if before == [] then 0
    else
      var n := |before| - 1;
      Spent(before[..n], after[..n]) + (if before[n].life && !after[n].life then 1 else 0)
  }

  // ---------------------------------------------------------------------------
  // The sweep of one projectile

  /** One sweep kills exactly the live enemies it overlaps, and counts them. */
  lemma {:induction false} StrikeKills(es: seq<Enemy>, p: Projectile)
    ensures EnemyFlagsOnlyFall(es, Strike(es, p))
    ensures Killed(es, Strike(es, p)) == HitCount(es, p)
  {
    if es != [] {
      var n := |es| - 1;
      StrikeKills(es[..n], p);
      assert Strike(es, p)[..n] == Strike(es[..n], p);
    }
  }

  // ---------------------------------------------------------------------------
  // Composing kills

  /** Comparing a pool with itself counts no kill. */
  lemma {:induction false} KilledNone(es: seq<Enemy>)
    ensures Killed(es, es) == 0
  {
    if es != [] {
      KilledNone(es[..|es| - 1]);
    }
  }

  /**
   * Kills add up along two passes whose flags only fall: an enemy already
   * dead after the first is never counted again by the second.
   */
  lemma {:induction false} KilledChain(a: seq<Enemy>, b: seq<Enemy>, c: seq<Enemy>)
    requires EnemyFlagsOnlyFall(a, b) && EnemyFlagsOnlyFall(b, c)
    ensures Killed(a, c) == Killed(a, b) + Killed(b, c)
  {
    if a != [] {
      var n := |a| - 1;
      KilledChain(a[..n], b[..n], c[..n]);
    }
  }

  /**
   * When every enemy was alive, the enemies still alive and the kills
   * together make up the pool: removing the dead afterwards removes exactly
   * as many enemies as were counted.
   */
  lemma {:induction false} SurvivorsPlusKills(before: seq<Enemy>, after: seq<Enemy>)
    requires EnemyFlagsOnlyFall(before, after)
    requires forall k :: 0 <= k < |before| ==> before[k].life
    ensures |Keep(after, EnemyAlive)| + Killed(before, after) == |before|
  {
    if before != [] {
      var n := |before| - 1;
      SurvivorsPlusKills(before[..n], after[..n]);
      assert after == after[..n] + [after[n]];
      KeepAppend(after[..n], [after[n]], EnemyAlive);
    }
  }

  // ---------------------------------------------------------------------------
  // The whole pass

  /**
   * A collision pass keeps both pools' lengths, changes no field but `life`,
   * only marks live objects dead, and counts exactly the enemies it marked.
   */
  lemma {:induction false} CollisionsOnlyKill(ps: seq<Projectile>, es: seq<Enemy>)
    ensures ProjectileFlagsOnlyFall(ps, Collisions(ps, es).projectiles)
    ensures EnemyFlagsOnlyFall(es, Collisions(ps, es).enemies)
    ensures Collisions(ps, es).kills == Killed(es, Collisions(ps, es).enemies)
  {
    if ps == [] {
      KilledNone(es);
    } else {
      var n := |ps| - 1;
      var prev := Collisions(ps[..n], es);
      CollisionsOnlyKill(ps[..n], es);
      var p := ps[n];
      if p.life {
        StrikeKills(prev.enemies, p);
        KilledChain(es, prev.enemies, Strike(prev.enemies, p));
        assert Collisions(ps, es).kills == prev.kills + HitCount(prev.enemies, p);
      }
    }
  }

  /**
   * An enemy that dies in the pass overlaps some projectile that was alive
   * when the pass began: a dead projectile kills nothing.
   */
  lemma {:induction false} KillNeedsLiveHit(ps: seq<Projectile>, es: seq<Enemy>, j: nat)
    requires j < |es| && es[j].life && !Collisions(ps, es).enemies[j].life
    ensures exists i :: 0 <= i < |ps| && ps[i].life && Hits(es[j], ps[i])
  {
    var n := |ps| - 1;
    var prev := Collisions(ps[..n], es);
    CollisionsOnlyKill(ps[..n], es);
    if prev.enemies[j].life {
      assert prev.enemies[j] == es[j];
      assert ps[n].life && Hits(es[j], ps[n]);
    } else {
      KillNeedsLiveHit(ps[..n], es, j);
      var i :| 0 <= i < n && ps[..n][i].life && Hits(es[j], ps[..n][i]);
      assert ps[i] == ps[..n][i];
    }
  }

  /**
   * No enemy that survives the pass overlaps a projectile that was alive
   * when the pass began.
   */
  lemma {:induction false} SurvivorsAreClear(ps: seq<Projectile>, es: seq<Enemy>, i: nat, j: nat)
    requires i < |ps| && j < |es| && ps[i].life && Collisions(ps, es).enemies[j].life
    ensures !Hits(es[j], ps[i])
  {
    var n := |ps| - 1;
    var prev := Collisions(ps[..n], es);
    CollisionsOnlyKill(ps[..n], es);
    var after := Collisions(ps, es).enemies;
    if ps[n].life {
      assert after[j] == Struck(prev.enemies[j], ps[n]);
    }
    assert prev.enemies[j].life;
    assert prev.enemies[j] == es[j];
    if i < n {
      assert ps[..n][i] == ps[i];
      SurvivorsAreClear(ps[..n], es, i, j);
    }
  }

  /**
   * A projectile dies in the pass only by hitting an enemy that dies in the
   * same pass; a projectile that was already dead stays as it was.
   */
  lemma {:induction false} ShotNeedsKill(ps: seq<Projectile>, es: seq<Enemy>, i: nat)
    requires i < |ps| && ps[i].life && !Collisions(ps, es).projectiles[i].life
    ensures exists j :: 0 <= j < |es| && es[j].life && !Collisions(ps, es).enemies[j].life && Hits(es[j], ps[i])
  {
    var n := |ps| - 1;
    var prev := Collisions(ps[..n], es);
    var out := Collisions(ps, es);
    CollisionsOnlyKill(ps[..n], es);
    CollisionsOnlyKill(ps, es);
    assert out.projectiles[..n] == prev.projectiles;
    if i == n {
      var p := ps[n];
      var k := HitCount(prev.enemies, p);
      assert k != 0;
      var j := ChangedIndex(prev.enemies, p);
      assert prev.enemies[j] == es[j];
    } else {
      assert ps[..n][i] == ps[i];
      ShotNeedsKill(ps[..n], es, i);
      var j :| 0 <= j < |es| && es[j].life && !prev.enemies[j].life && Hits(es[j], ps[i]);
      assert !out.enemies[j].life;
    }
  }

  /** A sweep with a positive hit count marks some live, overlapped enemy dead. */
  lemma {:induction false} ChangedIndex(es: seq<Enemy>, p: Projectile) returns (j: nat)
    requires HitCount(es, p) > 0
    ensures j < |es| && es[j].life && Hits(es[j], p) && !Strike(es, p)[j].life
  {
    var n := |es| - 1;
    if es[n].life && Hits(es[n], p) {
      j := n;
    } else {
      j := ChangedIndex(es[..n], p);
      assert es[..n][j] == es[j];
    }
  }

  /** Every projectile spent in the pass accounts for at least one kill. */
  lemma {:induction false} KillsCoverSpentShots(ps: seq<Projectile>, es: seq<Enemy>)
    ensures Spent(ps, Collisions(ps, es).projectiles) <= Collisions(ps, es).kills
  {
    if ps != [] {
      var n := |ps| - 1;
      KillsCoverSpentShots(ps[..n], es);
      var out := Collisions(ps, es);
      assert out.projectiles[..n] == Collisions(ps[..n], es).projectiles;
    }
  }

  /**
   * Because a projectile's own flag is not consulted during its sweep, one
   * projectile kills every live enemy it overlaps: here, two at once.
   */
  lemma OneShotTwoKills()
    ensures var e := NewEnemy(Origin, Zero4, 10.0);
      var p := NewProjectile(Origin, Vec3(0.0, 0.0, 1.0));
      var out := Collisions([p], [e, e]);
      out.kills == 2 && !out.enemies[0].life && !out.enemies[1].life && !out.projectiles[0].life
  {
    var e := NewEnemy(Origin, Zero4, 10.0);
    var p := NewProjectile(Origin, Vec3(0.0, 0.0, 1.0));
    assert Hits(e, p);
    assert [p][..0] == [];
    assert [e, e][..1] == [e];
    assert [e][..0] == [];
    assert HitCount([e], p) == 1;
    assert HitCount([e, e], p) == 2;
  }
}
