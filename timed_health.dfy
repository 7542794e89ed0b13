/**
 * The time-gated damage of feb-13 (Health/HealthManager.js): a zombie's
 * attack takes 10 off the player's total health at most once every 500
 * milliseconds. `Date.now()` is a parameter, in milliseconds; the player's
 * total health, which the original reads and writes through the player, is a
 * field, and the health bar is recorded as the values it is given.
 */
module TimedHealth {

  const DamageInterval: int := 500
  const DamageAmount: real := 10.0

  function Max(a: real, b: real): real {
    if a >= b then a else b
  }

  /** The part of the manager an attack changes. */
  datatype Gate = Gate(lastDamageTime: int, totalHealth: real)

  /**
   * `handleZombieAttack()` at time `now`: once the interval since the last
   * damage has passed, the health drops by 10 down to 0 and the clock
   * restarts; otherwise nothing changes. The result says which.
   */
  function Attack(g: Gate, now: int): (Gate, bool) {
    if now - g.lastDamageTime >= DamageInterval then (Gate(now, Max(0.0, g.totalHealth - DamageAmount)), true)
    else (g, false)
  }

  class HealthManager {
    const damageInterval: int := DamageInterval
    const damageAmount: real := DamageAmount
    var lastDamageTime: int
    /** The player's total health. */
    var totalHealth: real
    /** The values passed to the bar's `updateHealth`, in order. */
    var healthBar: seq<real>

    /** Built at time `now` for a player whose total health is `totalHealth`. */
    constructor (now: int, totalHealth: real)
      ensures lastDamageTime == now && this.totalHealth == totalHealth && healthBar == []
    {
      lastDamageTime := now;
      this.totalHealth := totalHealth;
      healthBar := [];
    }

    /** `handleZombieAttack()`, called at time `now`. */
    method HandleZombieAttack(now: int) returns (dealt: bool)
      modifies this
      ensures (Gate(lastDamageTime, totalHealth), dealt) == Attack(Gate(old(lastDamageTime), old(totalHealth)), now)
      ensures healthBar == old(healthBar) + (if dealt then [totalHealth] else [])
    {
      var currentTime := now;
      if currentTime - lastDamageTime >= damageInterval {
        var currentHealth := totalHealth;
        var newHealth := Max(0.0, currentHealth - damageAmount);
        totalHealth := newHealth;
        healthBar := healthBar + [newHealth];
        lastDamageTime := currentTime;
        return true;
      }
      return false;
    }

    function GetCurrentHealth(): real
      reads this
    {
      totalHealth
    }
  }

  /**
   * An attack lands exactly when 500 ms have passed since the last one; it
   * lowers the health by 10 but not below 0 and restarts the clock, and an
   * attack that does not land changes nothing.
   */
  lemma AttackGate(g: Gate, now: int)
    ensures var (g1, dealt) := Attack(g, now);
            (dealt <==> now - g.lastDamageTime >= DamageInterval) &&
            (dealt ==> g1.lastDamageTime == now && g1.totalHealth >= 0.0 &&
                       (g1.totalHealth == g.totalHealth - DamageAmount || g1.totalHealth == 0.0)) &&
            (!dealt ==> g1 == g)
  {
  }

  /** The gate after a run of attacks at the given times, and how many landed. */
  function Attacks(g: Gate, times: seq<int>): (res: (Gate, nat))
    ensures res.1 <= |times|
    decreases |times|
  {
    if times == [] then (g, 0)
    else
      var (g1, dealt) := Attack(g, times[0]);
      var (gn, n) := Attacks(g1, times[1..]);
      (gn, n + if dealt then 1 else 0)
  }

  /**
   * No attack lands within 500 ms of the last damage, or of construction:
   * a run of attacks all that soon changes nothing.
   */
  lemma {:induction false} NoDamageWithinInterval(g: Gate, times: seq<int>)
    requires forall k :: 0 <= k < |times| ==> times[k] - g.lastDamageTime < DamageInterval
    ensures Attacks(g, times) == (g, 0)
    decreases |times|
  {
    if times != [] {
      assert times[0] - g.lastDamageTime < DamageInterval;
      NoDamageWithinInterval(g, times[1..]);
    }
  }

  /** After an attack lands at `now`, attacks before `now + 500` do nothing. */
  lemma QuietAfterDamage(g: Gate, now: int, times: seq<int>)
    requires Attack(g, now).1
    requires forall k :: 0 <= k < |times| ==> times[k] < now + DamageInterval
    ensures Attacks(Attack(g, now).0, times) == (Attack(g, now).0, 0)
  {
    NoDamageWithinInterval(Attack(g, now).0, times);
  }

  /** Over any run of attacks, the health never rises nor falls below 0. */
  lemma {:induction false} HealthOnlyFalls(g: Gate, times: seq<int>)
    requires g.totalHealth >= 0.0
    ensures 0.0 <= Attacks(g, times).0.totalHealth <= g.totalHealth
    decreases |times|
  {
    if times != [] {
      HealthOnlyFalls(Attack(g, times[0]).0, times[1..]);
    }
  }

  /**
   * Each landed attack moves the clock on by at least 500 ms, and never past
   * the latest attack time.
   */
  lemma {:induction false} ClockAdvances(g: Gate, times: seq<int>, latest: int)
    requires latest >= g.lastDamageTime
    requires forall k :: 0 <= k < |times| ==> times[k] <= latest
    ensures var (gn, n) := Attacks(g, times);
            g.lastDamageTime + DamageInterval * n <= gn.lastDamageTime <= latest
    decreases |times|
  {
    if times != [] {
      assert times[0] <= latest;
      ClockAdvances(Attack(g, times[0]).0, times[1..], latest);
    }
  }

  /**
   * At most one attack lands per 500 ms: attacks up to time `latest` land
   * at most (latest - last damage time) / 500 times.
   */
  lemma RateLimited(g: Gate, times: seq<int>, latest: int)
    requires latest >= g.lastDamageTime
    requires forall k :: 0 <= k < |times| ==> times[k] <= latest
    ensures DamageInterval * Attacks(g, times).1 <= latest - g.lastDamageTime
  {
    ClockAdvances(g, times, latest);
  }
}
