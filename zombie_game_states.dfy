/**
 * The zombie-game version of the state machine: States/ZombieStates.js,
 * whose approach and attack states measure the distance to the player in
 * the ground plane, and States/ZombieStateManager.js, which also keeps a
 * cooldown timer and damages the player. The idle and death states, and the
 * shapes of the descriptors, are those of feb-13.
 *
 * The ground-plane distance `Math.sqrt(xDiff * xDiff + zDiff * zDiff)` from
 * the zombie to the player is a parameter of each frame.
 */
module ZombieGameStates {
  import opened Wrappers
  import opened ZombieBaseState
  import C = ControllerStates

  /** The module-level `attackRange` of ZombieStates.js. */
  const StateAttackRange: real := 20.0
  const DamageCooldown: real := 1000.0
  const DamageAmount: int := 5

  /** `enterState(zombie)` of each state; AttackState's one says `Attack` here. */
  function EnterState(k: C.Kind): (r: Descriptor)
    ensures r.shouldMove.None? && r.shouldPathFind.None? && r.pathDistance.None? && r.clearPath.None?
  {
    match k
    case Idle => Enter("Idle")
    case Approach => Enter("Walk")
    case Attack => Enter("Attack")
    case Death => Enter("Death")
  }

  /**
   * `updateState(zombie, playerPosition, currentPath)` of the current state,
   * with `d` the path's length, `xz` the ground-plane distance to the player,
   * `hitPoints` the zombie's and `zombieAttackRange` its own `attackRange`.
   */
  function UpdateState(k: C.Kind, zombieAttackRange: Option<real>, hitPoints: int, d: real, xz: real): (C.Kind, Descriptor) {
    match k
    case Idle => C.IdleUpdate(d)
    case Approach =>
      if xz <= StateAttackRange then (C.Approach, EnterState(C.Attack))
      else if xz > C.MaxChaseDistance then (C.Approach, EnterState(C.Idle))
      else (C.Approach, C.Walking(d))
    case Attack =>
      if C.Above(xz, zombieAttackRange) then (C.Attack, EnterState(C.Approach))
      else if hitPoints <= 0 && C.AtMost(xz, zombieAttackRange) then (C.Attack, EnterState(C.Death))
      else (C.Attack, C.Attacking(d))
    case Death => (C.Death, C.Dead)
  }

  /**
   * The approach state decides on the ground-plane distance alone: within
   * 20 it returns the attack entry, past the chase distance the idle entry,
   * and the path's length is only reported.
   */
  lemma ApproachUsesGroundDistance(zombieAttackRange: Option<real>, hitPoints: int, d: real, d': real, xz: real)
    ensures var (k, r) := UpdateState(C.Approach, zombieAttackRange, hitPoints, d, xz);
            var (k', r') := UpdateState(C.Approach, zombieAttackRange, hitPoints, d', xz);
            k == k' == C.Approach && r.animation == r'.animation && r.shouldMove == r'.shouldMove &&
            (r == EnterState(C.Attack) <==> xz <= StateAttackRange) &&
            (r == EnterState(C.Idle) <==> StateAttackRange < xz && xz > C.MaxChaseDistance)
  {
  }

  /**
   * The attack state reads the zombie's own attack range: when it is
   * undefined, an attacking zombie never hands back to the approach and
   * never reports its death, whatever the distance.
   */
  lemma AttackWithoutRange(hitPoints: int, d: real, xz: real)
    ensures UpdateState(C.Attack, None, hitPoints, d, xz) == (C.Attack, C.Attacking(d))
  {
  }

  /** A dying attacker within reach reports the death entry without the state changing. */
  lemma AttackReportsDeath(zombieAttackRange: Option<real>, hitPoints: int, d: real, xz: real)
    requires hitPoints <= 0 && C.AtMost(xz, zombieAttackRange)
    ensures UpdateState(C.Attack, zombieAttackRange, hitPoints, d, xz) == (C.Attack, Enter("Death"))
  {
  }

  /** What the manager's `update` changes: its state, the zombie's hit points and the damage timer. */
  datatype Manager = Manager(kind: C.Kind, hitPoints: int, damageTimer: real)

  /** One frame: the player's attack, the path's length, the ground distance, and the seconds elapsed. */
  datatype Frame = Frame(attacking: bool, distance: real, xzDistance: real, deltaTime: real)

  /** The manager after a frame, the descriptor returned, whether a hit landed, whether the player was damaged. */
  datatype Outcome = Outcome(next: Manager, descriptor: Descriptor, hit: bool, damaged: bool)

  /** The damage timer runs down by the frame's milliseconds only while it is positive. */
  function CountDown(timer: real, deltaTime: real): real {
    if timer > 0.0 then timer - deltaTime * 1000.0 else timer
  }

  /**
   * `ZombieStateManager.update(playerPosition, playerAttacking, currentPath,
   * healthManager, deltaTime)`: the timer runs down; a landing hit costs the
   * zombie a hit point, and the last one switches to `DeathState` and
   * returns its entry; otherwise the current state updates and, when it shows
   * `Attack` and the timer has run out, the player is damaged and the timer
   * restarts.
   */
  function Step(m: Manager, zombieAttackRange: Option<real>, f: Frame): Outcome {
    var timer := CountDown(m.damageTimer, f.deltaTime);
    var hit := C.Hit(f.attacking, f.distance);
    var hp := if hit then m.hitPoints - 1 else m.hitPoints;
    if hit && hp <= 0 then Outcome(Manager(C.Death, hp, timer), EnterState(C.Death), true, false)
    else
      var (k, r) := UpdateState(m.kind, zombieAttackRange, hp, f.distance, f.xzDistance);
      if r.animation == "Attack" && timer <= 0.0 then Outcome(Manager(k, hp, DamageCooldown), r, hit, true)
      else Outcome(Manager(k, hp, timer), r, hit, false)
  }

  class ZombieStateManager {
    var currentState: C.Kind
    /** The managed zombie's `hitPoints`. */
    var zombieHitPoints: int
    var damageTimer: real
    /** The values passed to the zombie's `healthBar.updateHealth`, in order. */
    var healthBarUpdates: seq<int>
    /** The amounts passed to `healthManager.damagePlayer`, in order. */
    var playerDamage: seq<int>
    /** Whether the zombie has a health bar. */
    const hasHealthBar: bool
    /** The zombie's own `attackRange`, which the attack state reads. */
    const zombieAttackRange: Option<real>
    const attackRange: real := C.AttackRange
    const detectionRange: real := C.DetectionRange
    const maxChaseDistance: real := C.MaxChaseDistance
    const damageCooldown: real := DamageCooldown
    const damageAmount: int := DamageAmount

    constructor (zombieHitPoints: int, hasHealthBar: bool, zombieAttackRange: Option<real>)
      ensures currentState == C.Idle && damageTimer == 0.0
      ensures this.zombieHitPoints == zombieHitPoints && healthBarUpdates == [] && playerDamage == []
      ensures this.hasHealthBar == hasHealthBar && this.zombieAttackRange == zombieAttackRange
    {
      currentState := C.Idle;
      this.zombieHitPoints := zombieHitPoints;
      damageTimer := 0.0;
      healthBarUpdates := [];
      playerDamage := [];
      this.hasHealthBar := hasHealthBar;
      this.zombieAttackRange := zombieAttackRange;
    }

    /** `update(...)`, with the ground-plane distance to the player given. */
    method Update<P>(playerAttacking: bool, currentPath: Option<seq<P>>, dist: (P, P) -> real,
                     xzDistance: real, deltaTime: real) returns (r: Descriptor)
      modifies this
      ensures var o := Step(Manager(old(currentState), old(zombieHitPoints), old(damageTimer)), zombieAttackRange,
                            Frame(playerAttacking, PathDistance(currentPath, dist), xzDistance, deltaTime));
              Manager(currentState, zombieHitPoints, damageTimer) == o.next && r == o.descriptor &&
              healthBarUpdates == old(healthBarUpdates) + (if o.hit && hasHealthBar then [zombieHitPoints] else []) &&
              playerDamage == old(playerDamage) + (if o.damaged then [DamageAmount] else [])
    {
      if damageTimer > 0.0 {
        damageTimer := damageTimer - deltaTime * 1000.0;
      }
      var d := ZombieBaseState.GetPathDistance(currentPath, dist);
      if playerAttacking && d <= attackRange {
        zombieHitPoints := zombieHitPoints - 1;
        if hasHealthBar {
          healthBarUpdates := healthBarUpdates + [zombieHitPoints];
        }
        if zombieHitPoints <= 0 {
          currentState := C.Death;
          return EnterState(currentState);
        }
      }
      var next := UpdateState(currentState, zombieAttackRange, zombieHitPoints, d, xzDistance);
      currentState, r := next.0, next.1;
      if r.animation == "Attack" && damageTimer <= 0.0 {
        playerDamage := playerDamage + [damageAmount];
        damageTimer := damageCooldown;
      }
    }
  }

  /** A landing hit costs exactly one hit point; nothing else changes them. */
  lemma HitCostsOne(m: Manager, zombieAttackRange: Option<real>, f: Frame)
    ensures var o := Step(m, zombieAttackRange, f);
            (o.hit <==> C.Hit(f.attacking, f.distance)) &&
            o.next.hitPoints == (if o.hit then m.hitPoints - 1 else m.hitPoints)
  {
  }

  /**
   * The player is damaged exactly when the frame shows `Attack` and the
   * run-down timer is out; the timer then restarts at the cooldown, and
   * otherwise keeps its run-down value.
   */
  lemma DamageOnlyWhenTimerOut(m: Manager, zombieAttackRange: Option<real>, f: Frame)
    ensures var o := Step(m, zombieAttackRange, f);
            var timer := CountDown(m.damageTimer, f.deltaTime);
            (o.damaged <==> o.descriptor.animation == "Attack" && timer <= 0.0) &&
            o.next.damageTimer == (if o.damaged then DamageCooldown else timer)
  {
  }

  /**
   * An approaching zombie within the state's attack range shows `Attack`
   * without leaving the approach state, so it can damage the player.
   */
  lemma ApproachStrikes(m: Manager, zombieAttackRange: Option<real>, f: Frame)
    requires m.kind == C.Approach && !f.attacking && f.xzDistance <= StateAttackRange
    requires m.damageTimer <= 0.0
    ensures var o := Step(m, zombieAttackRange, f);
            o.next.kind == C.Approach && o.descriptor == Enter("Attack") && o.damaged
  {
  }

  /** The outcomes of a run of frames. */
  function Run(m: Manager, zombieAttackRange: Option<real>, fs: seq<Frame>): (os: seq<Outcome>)
    ensures |os| == |fs|
    decreases |fs|
  {
    if fs == [] then []
    else
      var o := Step(m, zombieAttackRange, fs[0]);
      [o] + Run(o.next, zombieAttackRange, fs[1..])
  }

  /** The milliseconds a run of frames takes. */
  function Elapsed(fs: seq<Frame>): real {
    if fs == [] then 0.0 else fs[0].deltaTime * 1000.0 + Elapsed(fs[1..])
  }

  predicate Forward(fs: seq<Frame>) {
    forall k :: 0 <= k < |fs| ==> fs[k].deltaTime >= 0.0
  }

  lemma {:induction false} ElapsedNonNegative(fs: seq<Frame>)
    requires Forward(fs)
    ensures Elapsed(fs) >= 0.0
  {
    if fs != [] {
      assert fs[0].deltaTime >= 0.0;
      ElapsedNonNegative(fs[1..]);
    }
  }

  /** While the timer has time left, no frame damages the player. */
  lemma {:induction false} CooldownHolds(m: Manager, zombieAttackRange: Option<real>, fs: seq<Frame>)
    requires m.damageTimer > 0.0 && Forward(fs) && Elapsed(fs) < m.damageTimer
    ensures forall k :: 0 <= k < |fs| ==> !Run(m, zombieAttackRange, fs)[k].damaged
    decreases |fs|
  {
    if fs != [] {
      var o := Step(m, zombieAttackRange, fs[0]);
      assert fs[0].deltaTime >= 0.0;
      ElapsedNonNegative(fs[1..]);
      assert !o.damaged && o.next.damageTimer == m.damageTimer - fs[0].deltaTime * 1000.0;
      CooldownHolds(o.next, zombieAttackRange, fs[1..]);
      assert Run(m, zombieAttackRange, fs) == [o] + Run(o.next, zombieAttackRange, fs[1..]);
    }
  }

  /** After damaging the player, the manager does not do so again for a whole cooldown. */
  lemma CooldownAfterDamage(m: Manager, zombieAttackRange: Option<real>, f: Frame, fs: seq<Frame>)
    requires Step(m, zombieAttackRange, f).damaged
    requires Forward(fs) && Elapsed(fs) < DamageCooldown
    ensures forall k :: 0 <= k < |fs| ==> !Run(Step(m, zombieAttackRange, f).next, zombieAttackRange, fs)[k].damaged
  {
    CooldownHolds(Step(m, zombieAttackRange, f).next, zombieAttackRange, fs);
  }

  /** A dead zombie stays dead, shows `Death` on every frame and never damages the player. */
  lemma {:induction false} DeathIsFinal(m: Manager, zombieAttackRange: Option<real>, fs: seq<Frame>)
    requires m.kind == C.Death
    ensures forall k :: 0 <= k < |fs| ==>
              var o := Run(m, zombieAttackRange, fs)[k];
              o.next.kind == C.Death && o.descriptor.animation == "Death" && !o.damaged
    decreases |fs|
  {
    if fs != [] {
      var o := Step(m, zombieAttackRange, fs[0]);
      DeathIsFinal(o.next, zombieAttackRange, fs[1..]);
      assert Run(m, zombieAttackRange, fs) == [o] + Run(o.next, zombieAttackRange, fs[1..]);
    }
  }

  /** A manager that starts idle never reaches the attack state: only the idle state hands over. */
  lemma {:induction false} NeverAttacks(m: Manager, zombieAttackRange: Option<real>, fs: seq<Frame>)
    requires m.kind != C.Attack
    ensures forall k :: 0 <= k < |fs| ==> Run(m, zombieAttackRange, fs)[k].next.kind != C.Attack
    decreases |fs|
  {
    if fs != [] {
      var o := Step(m, zombieAttackRange, fs[0]);
      assert o.next.kind != C.Attack;
      NeverAttacks(o.next, zombieAttackRange, fs[1..]);
      assert Run(m, zombieAttackRange, fs) == [o] + Run(o.next, zombieAttackRange, fs[1..]);
    }
  }

  /** Hits on a dead zombie go on counting down: its hit points go below zero. */
  lemma HitPointsGoNegative(zombieAttackRange: Option<real>)
    ensures Step(Manager(C.Death, 0, 0.0), zombieAttackRange, Frame(true, 0.0, 0.0, 0.0)).next.hitPoints == -1
  {
  }
}
