/**
 * The single-class zombie state machine of feb-13 (States/ZombieState.js):
 * five modes, five hit points, and one `update` per frame that reads the
 * length of the current path and whether the player is attacking.
 */
module ZombieState {
  import opened Wrappers
  import opened ZombieBaseState

  /** `ZombieState.States`. */
  datatype Mode = Idle | Approach | Attack | AttackingStill | Death

  const HitPoints: int := 5
  const AttackRange: real := 2.0
  const DetectionRange: real := 300.0
  const MaxChaseDistance: real := 200.0

  /** The part of a `ZombieState` that `update` changes. */
  datatype Zombie = Zombie(mode: Mode, hitPoints: int)

  /** The descriptor of a dead zombie. */
  const Dying: Descriptor := Descriptor("death", Some(false), Some(false), None, Some(true))

  /** Standing still and clearing the debug path. */
  function Resting(d: real): Descriptor {
    Descriptor("idle", Some(false), Some(false), Some(d), Some(true))
  }

  function Striking(d: real): Descriptor {
    Descriptor("attack", Some(false), Some(false), Some(d), None)
  }

  function Walking(d: real): Descriptor {
    Descriptor("walk", Some(true), Some(true), Some(d), None)
  }

  /** The player's attack lands: it is on and the path is within the attack range. */
  predicate Hit(attacking: bool, d: real) {
    attacking && d <= AttackRange
  }

  /**
   * One `update(playerPosition, playerAttacking, currentPath)` on state `z`,
   * with `d` the length of the current path: the new state and the
   * descriptor returned.
   */
  function Tick(z: Zombie, attacking: bool, d: real): (Zombie, Descriptor) {
    if z.mode == Death then (z, Dying)
    else if d > MaxChaseDistance && z.mode == Approach then (Zombie(Idle, z.hitPoints), Resting(d))
    else
      var hp := if Hit(attacking, d) then z.hitPoints - 1 else z.hitPoints;
      if Hit(attacking, d) && hp <= 0 then (Zombie(Death, hp), Dying)
      else match z.mode
        case Idle => (Zombie(if d <= DetectionRange then Approach else Idle, hp), Resting(d))
        case Approach =>
          if d <= AttackRange then (Zombie(AttackingStill, hp), Striking(d))
          else (Zombie(Approach, hp), Walking(d))
        case Attack =>
          if d > DetectionRange then (Zombie(Idle, hp), Resting(d))
          else (Zombie(Attack, hp), Striking(d))
        case AttackingStill =>
          if d > AttackRange then (Zombie(Approach, hp), Walking(d))
          else (Zombie(AttackingStill, hp), Striking(d))
        case Death => (z, Dying)
  }

  class ZombieState {
    var currentState: Mode
    var hitPoints: int
    const attackRange: real := AttackRange
    const detectionRange: real := DetectionRange
    const maxChaseDistance: real := MaxChaseDistance

    /** A new zombie is idle with five hit points. */
    constructor ()
      ensures currentState == Idle && hitPoints == HitPoints
      ensures Sane(Zombie(currentState, hitPoints))
    {
      currentState := Idle;
      hitPoints := HitPoints;
    }

    /** `getPathDistance(path)`, the same as the base state's. */
    method GetPathDistance<P>(path: Option<seq<P>>, dist: (P, P) -> real) returns (d: real)
      ensures d == PathDistance(path, dist)
    {
      d := ZombieBaseState.GetPathDistance(path, dist);
    }

    /** `update(playerPosition, playerAttacking, currentPath)`; the player's position is not read. */
    method Update<P>(playerAttacking: bool, currentPath: Option<seq<P>>, dist: (P, P) -> real) returns (r: Descriptor)
      modifies this
      ensures (Zombie(currentState, hitPoints), r) ==
              Tick(Zombie(old(currentState), old(hitPoints)), playerAttacking, PathDistance(currentPath, dist))
    {
      if currentState == Death {
        return Dying;
      }
      var d := GetPathDistance(currentPath, dist);
      if d > maxChaseDistance && currentState == Approach {
        currentState := Idle;
        return Resting(d);
      }
      if playerAttacking && d <= attackRange {
        hitPoints := hitPoints - 1;
        if hitPoints <= 0 {
          currentState := Death;
          return Dying;
        }
      }
      if currentState == Idle {
        if d <= detectionRange {
          currentState := Approach;
        }
        r := Resting(d);
      } else if currentState == Approach {
        if d <= attackRange {
          currentState := AttackingStill;
          r := Striking(d);
        } else {
          r := Walking(d);
        }
      } else if currentState == Attack {
        if d > detectionRange {
          currentState := Idle;
          r := Resting(d);
        } else {
          r := Striking(d);
        }
      } else {
        if d > attackRange {
          currentState := Approach;
          r := Walking(d);
        } else {
          r := Striking(d);
        }
      }
    }
  }

  /** The state after a run of frames, and the descriptor of each frame. */
  function Run(z: Zombie, ins: seq<Input>): (res: (Zombie, seq<Descriptor>))
    ensures |res.1| == |ins|
    decreases |ins|
  {
    if ins == [] then (z, [])
    else
      var (z1, r) := Tick(z, ins[0].attacking, ins[0].distance);
      var (zn, rs) := Run(z1, ins[1..]);
      (zn, [r] + rs)
  }

  /** A hit costs exactly one hit point, and only a hit that lands on a live zombie not giving up the chase. */
  lemma HitCostsOne(z: Zombie, attacking: bool, d: real)
    ensures var z1 := Tick(z, attacking, d).0;
            (z1.hitPoints == z.hitPoints - 1 <==>
               z.mode != Death && !(d > MaxChaseDistance && z.mode == Approach) && Hit(attacking, d)) &&
            (z1.hitPoints == z.hitPoints || z1.hitPoints == z.hitPoints - 1)
  {
  }

  /** The zombie dies exactly when a landing hit takes its last hit point. */
  lemma DiesWhenHitPointsRunOut(z: Zombie, attacking: bool, d: real)
    requires z.mode != Death
    ensures var (z1, r) := Tick(z, attacking, d);
            (z1.mode == Death <==>
               !(d > MaxChaseDistance && z.mode == Approach) && Hit(attacking, d) && z.hitPoints <= 1) &&
            (z1.mode == Death <==> r == Dying)
  {
  }

  /** An approaching zombie whose path outgrows the chase distance gives up: idle, still, path cleared. */
  lemma AbandonsChase(z: Zombie, attacking: bool, d: real)
    requires z.mode == Approach && d > MaxChaseDistance
    ensures Tick(z, attacking, d) == (Zombie(Idle, z.hitPoints), Resting(d))
  {
  }

  /**
   * The moves of a zombie that survives the frame: an idle one that spots
   * the player starts approaching but stands still this frame; an
   * approaching one in reach stops to attack; an attacking one whose player
   * moves out of reach walks after it again.
   */
  lemma Transitions(z: Zombie, attacking: bool, d: real)
    requires z.mode != Death && !(z.mode == Approach && d > MaxChaseDistance)
    requires !(Hit(attacking, d) && z.hitPoints <= 1)
    ensures var (z1, r) := Tick(z, attacking, d);
            (z.mode == Idle ==> (z1.mode == Approach <==> d <= DetectionRange) && r.shouldMove == Some(false)) &&
            (z.mode == Approach ==> (z1.mode == AttackingStill <==> d <= AttackRange) &&
                                    (r.shouldMove == Some(true) <==> d > AttackRange)) &&
            (z.mode == AttackingStill ==> (z1.mode == Approach <==> d > AttackRange) &&
                                          (r.shouldMove == Some(true) <==> d > AttackRange)) &&
            (z.mode != Attack ==> z1.mode != Attack)
  {
  }

  /** A zombie walks exactly when the descriptor says `walk`, and then it also path-finds. */
  lemma MovesOnlyWhileWalking(z: Zombie, attacking: bool, d: real)
    ensures var r := Tick(z, attacking, d).1;
            (r.shouldMove == Some(true) <==> r.animation == "walk") && r.shouldMove == r.shouldPathFind &&
            (r.clearPath == Some(true) <==> r.animation == "idle" || r.animation == "death")
  {
  }

  /** A zombie with no path counts the player as in reach, so an attack always lands on it. */
  lemma NoPathIsInReach<P>(z: Zombie, dist: (P, P) -> real)
    requires z.mode != Death
    ensures Tick(z, true, PathDistance(None, dist)).0.hitPoints == z.hitPoints - 1
  {
  }

  /** A live zombie's hit points stay positive, a dead one's non-negative. */
  ghost predicate Sane(z: Zombie) {
    if z.mode == Death then z.hitPoints >= 0 else z.hitPoints >= 1
  }

  /** Every run from a fresh zombie or a sane one stays sane and never enters `ATTACK`. */
  lemma {:induction false} RunStaysSane(z: Zombie, ins: seq<Input>)
    requires Sane(z) && z.mode != Attack
    ensures Sane(Run(z, ins).0) && Run(z, ins).0.mode != Attack
    decreases |ins|
  {
    if ins != [] {
      var z1 := Tick(z, ins[0].attacking, ins[0].distance).0;
      assert Sane(z1) && z1.mode != Attack;
      RunStaysSane(z1, ins[1..]);
    }
  }

  /** Death is final: a dead zombie stays as it is and reports `death` on every frame. */
  lemma {:induction false} DeathIsFinal(z: Zombie, ins: seq<Input>)
    requires z.mode == Death
    ensures Run(z, ins).0 == z
    ensures forall k :: 0 <= k < |ins| ==> Run(z, ins).1[k] == Dying
    decreases |ins|
  {
    if ins != [] {
      DeathIsFinal(z, ins[1..]);
      var rs := Run(z, ins[1..]).1;
      assert Run(z, ins).1 == [Dying] + rs;
    }
  }
}
