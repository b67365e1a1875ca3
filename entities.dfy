/**
 * The game objects of the shooter demo and the constants that bound them.
 *
 * Positions are exact real triples: the single-precision arithmetic of the
 * demo is not modelled.  Every test on a distance is stated on the squared
 * distance, so no square root is needed.
 */
module Entities {

  /** Upper bound on the enemy pool; also the size of the enemy staging buffers. */
  const MaxEnemies: nat := 20
  /** Upper bound on the projectile pool; also the size of the projectile staging buffer. */
  const MaxProjectiles: nat := 50
  /** A projectile at this distance from the camera, or farther, is discarded. */
  const FarDistance: real := 35.0
  /** Seconds between two enemy spawns. */
  const SpawnInterval: real := 3.0
  /** Collider radius every enemy is built with. */
  const EnemyColliderRadius: real := 1.0
  /** Collider radius every projectile is built with (0.25 * 2). */
  const ProjectileColliderRadius: real := 0.5
  /** Speed every projectile is built with. */
  const ProjectileSpeed: real := 15.0

  datatype Vec3 = Vec3(x: real, y: real, z: real)
  {
    function Plus(v: Vec3): (r: Vec3) { Vec3(x + v.x, y + v.y, z + v.z) }
    function Scale(k: real): (r: Vec3) { Vec3(k * x, k * y, k * z) }
  }

  const Origin: Vec3 := Vec3(0.0, 0.0, 0.0)

  /** The rotation an enemy is drawn with; carried along, never inspected. */
  datatype Vec4 = Vec4(x: real, y: real, z: real, w: real)

  const Zero4: Vec4 := Vec4(0.0, 0.0, 0.0, 0.0)

  /** Square of the Euclidean distance between two points. */
  function SqDist(a: Vec3, b: Vec3): (d: real)
    ensures d >= 0.0
    ensures a == b ==> d == 0.0
  {
    var dx, dy, dz := a.x - b.x, a.y - b.y, a.z - b.z;
    dx * dx + dy * dy + dz * dz
  }

  /**
   * An enemy: where it is, whether it is still alive, its collider radius,
   * its rotation, and its distance to the camera cached when it was created.
   */
  datatype Enemy = Enemy(pos: Vec3, life: bool, colliderRad: real, quaternion: Vec4, dist: real)

  predicate EnemyAlive(e: Enemy) { e.life }

  /** A projectile: where it is, whether it is still alive, its collider radius, where it flies and how fast. */
  datatype Projectile = Projectile(pos: Vec3, life: bool, colliderRad: real, direction: Vec3, speed: real)

  predicate ProjectileAlive(p: Projectile) { p.life }

  /**
   * The enemy the constructor builds: alive, with the standard radius.  The
   * rotation and the camera distance are computed from random draws and the
   * camera with floating point; they arrive here already computed.
   */
  function NewEnemy(pos: Vec3, quaternion: Vec4, dist: real): (e: Enemy)
  {
    Enemy(pos, true, EnemyColliderRadius, quaternion, dist)
  }

  /** The projectile the constructor builds: alive, with the standard radius and speed. */
  function NewProjectile(pos: Vec3, direction: Vec3): (p: Projectile)
  {
    Projectile(pos, true, ProjectileColliderRadius, direction, ProjectileSpeed)
  }

  /** Where a projectile is after flying for `dt` seconds. */
  function Advance(p: Projectile, dt: real): (q: Projectile)
  {
    p.(pos := p.pos.Plus(p.direction.Scale(p.speed * dt)))
  }

  /**
   * Two steps of flight are one step of their summed duration, and flight
   * changes nothing but the position.
   */
  lemma AdvanceAdditive(p: Projectile, dt1: real, dt2: real)
    ensures Advance(Advance(p, dt1), dt2) == Advance(p, dt1 + dt2)
    ensures Advance(p, dt1).life == p.life && Advance(p, dt1).direction == p.direction
    ensures Advance(p, dt1).speed == p.speed && Advance(p, dt1).colliderRad == p.colliderRad
  {
    var k1, k2 := p.speed * dt1, p.speed * dt2;
    assert p.speed * (dt1 + dt2) == k1 + k2;
    var d := p.direction;
    assert (k1 + k2) * d.x == k1 * d.x + k2 * d.x;
    assert (k1 + k2) * d.y == k1 * d.y + k2 * d.y;
    assert (k1 + k2) * d.z == k1 * d.z + k2 * d.z;
  }
}
