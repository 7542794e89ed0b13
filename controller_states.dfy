/**
 * The state-object zombie machine of feb-13: the four states of
 * States/ZombieStates.js and the manager of States/ZombieStateManager.js
 * that holds the current state and the hit points. The states hold no data,
 * so a state object is modelled by its kind.
 */
module ControllerStates {
  import opened Wrappers
  import opened ZombieBaseState

  /** Which of `IdleState`, `ApproachState`, `AttackState`, `DeathState` is current. */
  datatype Kind = Idle | Approach | Attack | Death

  const HitPoints: int := 5
  const AttackRange: real := 30.0
  const DetectionRange: real := 300.0
  const MaxChaseDistance: real := 200.0

  /** `x <= r` in JavaScript, with `r` possibly undefined: false when it is. */
  predicate AtMost(x: real, r: Option<real>) {
    r.Some? && x <= r.value
  }

  /** `x > r` in JavaScript, with `r` possibly undefined: false when it is. */
  predicate Above(x: real, r: Option<real>) {
    r.Some? && x > r.value
  }

  /** `enterState(zombie)` of each state: only an animation. */
  function EnterState(k: Kind): (r: Descriptor)
    ensures r.shouldMove.None? && r.shouldPathFind.None? && r.pathDistance.None? && r.clearPath.None?
  {
    match k
    case Idle => Enter("Idle")
    case Approach => Enter("Walk")
    case Attack => Enter("Attak")
    case Death => Enter("Death")
  }

  function Idling(d: real): Descriptor {
    Descriptor("Idle", Some(false), Some(false), Some(d), None)
  }

  function Walking(d: real): Descriptor {
    Descriptor("Walk", Some(true), Some(true), Some(d), None)
  }

  function Attacking(d: real): Descriptor {
    Descriptor("Attack", Some(false), Some(false), Some(d), None)
  }

  const Dead: Descriptor := Descriptor("Death", Some(false), Some(false), None, Some(true))

  /**
   * `IdleState.updateState`: within the detection range the manager's state
   * becomes `ApproachState` and its entry is returned. The result is the
   * manager's next state and the descriptor.
   */
  function IdleUpdate(d: real): (Kind, Descriptor) {
    if d <= DetectionRange then (Approach, EnterState(Approach)) else (Idle, Idling(d))
  }

  /**
   * `updateState(zombie, playerPosition, currentPath)` of the current state,
   * with `d` the path's length and `zombieAttackRange` the zombie's own
   * `attackRange`. Only the idle state changes the manager's state; the
   * others return another state's entry and stay as they are.
   */
  function UpdateState(k: Kind, zombieAttackRange: Option<real>, d: real): (Kind, Descriptor) {
    match k
    case Idle => IdleUpdate(d)
    case Approach =>
      if AtMost(d, zombieAttackRange) || d == 0.0 then (Approach, EnterState(Attack))
      else if d > MaxChaseDistance then (Approach, EnterState(Idle))
      else (Approach, Walking(d))
    case Attack =>
      if Above(d, zombieAttackRange) then (Attack, EnterState(Approach))
      else (Attack, Attacking(d))
    case Death => (Death, Dead)
  }

  /**
   * The shape of what a state's update returns: entries of other states
   * carry only an animation; the others say whether to move, and only the
   * walk says yes; only the death state clears the path.
   */
  lemma DescriptorShapes(k: Kind, zombieAttackRange: Option<real>, d: real)
    ensures var r := UpdateState(k, zombieAttackRange, d).1;
            (r.shouldMove.None? <==> r == Enter(r.animation)) &&
            (r.shouldMove == Some(true) <==> r == Walking(d)) &&
            r.shouldMove == r.shouldPathFind &&
            (r.clearPath == Some(true) <==> k == Death)
  {
  }

  /**
   * The approach state tests for the attack first: within the zombie's
   * attack range, or with a path of length 0, it returns the attack entry
   * however far the chase has gone.
   */
  lemma ApproachTestsAttackFirst(zombieAttackRange: Option<real>, d: real)
    requires AtMost(d, zombieAttackRange) || d == 0.0
    ensures UpdateState(Approach, zombieAttackRange, d) == (Approach, Enter("Attak"))
  {
  }

  /** An approaching zombie past the chase distance and out of reach returns the idle entry and stays approaching. */
  lemma ApproachGivesUp(zombieAttackRange: Option<real>, d: real)
    requires !AtMost(d, zombieAttackRange) && d > MaxChaseDistance
    ensures UpdateState(Approach, zombieAttackRange, d) == (Approach, Enter("Idle"))
  {
  }

  /** An attacking zombie hands back the approach entry exactly when the player is out of its reach. */
  lemma AttackOutOfReach(zombieAttackRange: Option<real>, d: real)
    ensures UpdateState(Attack, zombieAttackRange, d).1 == EnterState(Approach) <==> Above(d, zombieAttackRange)
  {
  }

  /** What the manager's `update` changes. */
  datatype Manager = Manager(kind: Kind, hitPoints: int)

  /** A landing hit: the player attacks and the path is within the manager's attack range. */
  predicate Hit(attacking: bool, d: real) {
    attacking && d <= AttackRange
  }

  /**
   * `ZombieStateManager.update`, with `d` the path's length: a landing hit
   * costs a hit point, and the last one switches to `DeathState` and returns
   * its entry; otherwise the current state updates.
   */
  function Step(m: Manager, zombieAttackRange: Option<real>, attacking: bool, d: real): (Manager, Descriptor) {
    var hp := if Hit(attacking, d) then m.hitPoints - 1 else m.hitPoints;
    if Hit(attacking, d) && hp <= 0 then (Manager(Death, hp), EnterState(Death))
    else
      var (k, r) := UpdateState(m.kind, zombieAttackRange, d);
      (Manager(k, hp), r)
  }

  class ZombieStateManager {
    var currentState: Kind
    var hitPoints: int
    const attackRange: real := AttackRange
    const detectionRange: real := DetectionRange
    const maxChaseDistance: real := MaxChaseDistance
    /** The managed zombie's `attackRange`, which the approach and attack states read. */
    const zombieAttackRange: Option<real>

    constructor (zombieAttackRange: Option<real>)
      ensures currentState == Idle && hitPoints == HitPoints
      ensures this.zombieAttackRange == zombieAttackRange
    {
      currentState := Idle;
      hitPoints := HitPoints;
      this.zombieAttackRange := zombieAttackRange;
    }

    /** `getPathDistance(path)`, delegated to the current state. */
    method GetPathDistance<P>(path: Option<seq<P>>, dist: (P, P) -> real) returns (d: real)
      ensures d == PathDistance(path, dist)
    {
      d := ZombieBaseState.GetPathDistance(path, dist);
    }

    /** `update(playerPosition, playerAttacking, currentPath)`. */
    method Update<P>(playerAttacking: bool, currentPath: Option<seq<P>>, dist: (P, P) -> real) returns (r: Descriptor)
      modifies this
      ensures (Manager(currentState, hitPoints), r) ==
              Step(Manager(old(currentState), old(hitPoints)), zombieAttackRange, playerAttacking, PathDistance(currentPath, dist))
    {
      var d := GetPathDistance(currentPath, dist);
      if playerAttacking && d <= attackRange {
        hitPoints := hitPoints - 1;
        if hitPoints <= 0 {
          currentState := Death;
          return EnterState(currentState);
        }
      }
      var pathDistance := ZombieBaseState.GetPathDistance(currentPath, dist);
      var next := UpdateState(currentState, zombieAttackRange, pathDistance);
      currentState, r := next.0, next.1;
    }
  }

  /** A landing hit costs exactly one hit point; nothing else changes them. */
  lemma HitCostsOne(m: Manager, zombieAttackRange: Option<real>, attacking: bool, d: real)
    ensures var m1 := Step(m, zombieAttackRange, attacking, d).0;
            m1.hitPoints == (if Hit(attacking, d) then m.hitPoints - 1 else m.hitPoints)
  {
  }

  /** A live zombie dies exactly when a landing hit takes its last hit point. */
  lemma DiesWhenHitPointsRunOut(m: Manager, zombieAttackRange: Option<real>, attacking: bool, d: real)
    requires m.kind != Death
    ensures Step(m, zombieAttackRange, attacking, d).0.kind == Death <==> Hit(attacking, d) && m.hitPoints <= 1
  {
  }

  /**
   * The manager's state changes only from idle to approach or to death: the
   * approach and attack states never hand over to another.
   */
  lemma OnlyIdleHandsOver(m: Manager, zombieAttackRange: Option<real>, attacking: bool, d: real)
    ensures var k := Step(m, zombieAttackRange, attacking, d).0.kind;
            k == m.kind || k == Death || (m.kind == Idle && k == Approach)
  {
  }

  /** The manager after a run of frames, and each frame's descriptor. */
  function Run(m: Manager, zombieAttackRange: Option<real>, ins: seq<Input>): (res: (Manager, seq<Descriptor>))
    ensures |res.1| == |ins|
    decreases |ins|
  {
    if ins == [] then (m, [])
    else
      var (m1, r) := Step(m, zombieAttackRange, ins[0].attacking, ins[0].distance);
      var (mn, rs) := Run(m1, zombieAttackRange, ins[1..]);
      (mn, [r] + rs)
  }

  /** A manager that starts idle never reaches the attack state. */
  lemma {:induction false} NeverAttacks(m: Manager, zombieAttackRange: Option<real>, ins: seq<Input>)
    requires m.kind != Attack
    ensures Run(m, zombieAttackRange, ins).0.kind != Attack
    decreases |ins|
  {
    if ins != [] {
      var m1 := Step(m, zombieAttackRange, ins[0].attacking, ins[0].distance).0;
      OnlyIdleHandsOver(m, zombieAttackRange, ins[0].attacking, ins[0].distance);
      NeverAttacks(m1, zombieAttackRange, ins[1..]);
    }
  }

  /**
   * Death is final: the state stays `DeathState` and every later frame
   * shows the `Death` animation, though hits still cost hit points.
   */
  lemma {:induction false} DeathIsFinal(m: Manager, zombieAttackRange: Option<real>, ins: seq<Input>)
    requires m.kind == Death
    ensures Run(m, zombieAttackRange, ins).0.kind == Death
    ensures forall k :: 0 <= k < |ins| ==> Run(m, zombieAttackRange, ins).1[k].animation == "Death"
    decreases |ins|
  {
    if ins != [] {
      var (m1, r) := Step(m, zombieAttackRange, ins[0].attacking, ins[0].distance);
      DeathIsFinal(m1, zombieAttackRange, ins[1..]);
      assert Run(m, zombieAttackRange, ins).1 == [r] + Run(m1, zombieAttackRange, ins[1..]).1;
    }
  }

  /** Hits on a dead zombie go on counting down: its hit points go below zero. */
  lemma HitPointsGoNegative(zombieAttackRange: Option<real>)
    ensures Step(Manager(Death, 0), zombieAttackRange, true, 0.0) == (Manager(Death, -1), EnterState(Death))
  {
  }
}
