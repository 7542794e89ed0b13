/**
 * The player's health of feb-13 (PlayerHealth/HealthManager.js): a value
 * between 0 and 100, healed up to the maximum and damaged down to 0, pushed
 * to the health bar on every change. The health bar and the player are
 * recorded as the calls made on them.
 */
module PlayerHealth {

  const MaxHealth: real := 100.0

  function Min(a: real, b: real): real {
    if a <= b then a else b
  }

  function Max(a: real, b: real): real {
    if a >= b then a else b
  }

  /** `Math.min(current + amount, max)`: the health after a heal. */
  function Healed(current: real, amount: real): (h: real)
    ensures h <= MaxHealth && h <= current + amount
    ensures h == current + amount || h == MaxHealth
  {
    Min(current + amount, MaxHealth)
  }

  /** `Math.max(current - amount, 0)`: the health after damage. */
  function Damaged(current: real, amount: real): (h: real)
    ensures h >= 0.0 && h >= current - amount
    ensures h == current - amount || h == 0.0
  {
    Max(current - amount, 0.0)
  }

  /** The calls made on the player. */
  datatype PlayerCall = SetColor(color: string) | Stop

  class HealthManager {
    var currentHealth: real
    const maxHealth: real := MaxHealth
    /** The values passed to the bar's `setHealth`, in order. */
    var healthBar: seq<real>
    /** The calls made on the player, in order. */
    var playerCalls: seq<PlayerCall>

    /** Health lies between 0 and the maximum. */
    predicate Valid()
      reads this
    {
      0.0 <= currentHealth <= maxHealth
    }

    constructor ()
      ensures currentHealth == MaxHealth && Valid()
      ensures healthBar == [] && playerCalls == []
    {
      currentHealth := MaxHealth;
      healthBar := [];
      playerCalls := [];
    }

    function GetCurrentHealth(): real
      reads this
    {
      currentHealth
    }

    function GetMaxHealth(): real {
      maxHealth
    }

    /** `healPlayer(amount)`. */
    method HealPlayer(amount: real)
      modifies this
      ensures currentHealth == Healed(old(currentHealth), amount)
      ensures healthBar == old(healthBar) + [currentHealth] && playerCalls == old(playerCalls)
      ensures old(Valid()) && amount >= 0.0 ==> Valid()
    {
      currentHealth := Min(currentHealth + amount, maxHealth);
      UpdateHealthBar();
    }

    /** `damagePlayer(amount)`: at 0 the player turns red and stops. */
    method DamagePlayer(amount: real)
      modifies this
      ensures currentHealth == Damaged(old(currentHealth), amount)
      ensures healthBar == old(healthBar) + [currentHealth]
      ensures playerCalls == old(playerCalls) + (if currentHealth == 0.0 then [SetColor("red"), Stop] else [])
      ensures old(Valid()) && amount >= 0.0 ==> Valid()
    {
      currentHealth := Max(currentHealth - amount, 0.0);
      UpdateHealthBar();
      if currentHealth == 0.0 {
        playerCalls := playerCalls + [SetColor("red"), Stop];
      }
    }

    /** `updateHealthBar()`: the bar shows the current health. */
    method UpdateHealthBar()
      modifies this
      ensures currentHealth == old(currentHealth) && playerCalls == old(playerCalls)
      ensures healthBar == old(healthBar) + [currentHealth]
    {
      healthBar := healthBar + [currentHealth];
    }
  }

  /** Within the bounds, heals and damages of non-negative amounts stay within them. */
  lemma StaysInBounds(current: real, amount: real)
    requires 0.0 <= current <= MaxHealth && amount >= 0.0
    ensures 0.0 <= Healed(current, amount) <= MaxHealth
    ensures 0.0 <= Damaged(current, amount) <= MaxHealth
  {
  }

  /** The player stops exactly when the damage is at least the health left. */
  lemma StopsWhenHealthRunsOut(current: real, amount: real)
    ensures Damaged(current, amount) == 0.0 <==> amount >= current
  {
  }

  /** Damage undoes a heal that does not reach the maximum. */
  lemma DamageUndoesHeal(current: real, amount: real)
    requires 0.0 <= current && 0.0 <= amount && current + amount <= MaxHealth
    ensures Damaged(Healed(current, amount), amount) == current
  {
  }

  /** The total of a list of amounts. */
  function Total(amounts: seq<real>): real
    decreases |amounts|
  {
    if amounts == [] then 0.0 else amounts[0] + Total(amounts[1..])
  }

  /** The health after a run of damages, in order. */
  function DamagedBy(current: real, amounts: seq<real>): real
    decreases |amounts|
  {
    if amounts == [] then current else DamagedBy(Damaged(current, amounts[0]), amounts[1..])
  }

  /**
   * A run of non-negative damages takes off their total, down to 0: the
   * rounding to 0 on each step loses nothing against rounding once at the end.
   */
  lemma {:induction false} DamagedByTotal(current: real, amounts: seq<real>)
    requires current >= 0.0
    requires forall k :: 0 <= k < |amounts| ==> amounts[k] >= 0.0
    ensures DamagedBy(current, amounts) == Damaged(current, Total(amounts))
    decreases |amounts|
  {
    if amounts != [] {
      assert amounts[0] >= 0.0;
      DamagedByTotal(Damaged(current, amounts[0]), amounts[1..]);
      TotalNonNegative(amounts[1..]);
    }
  }

  lemma {:induction false} TotalNonNegative(amounts: seq<real>)
    requires forall k :: 0 <= k < |amounts| ==> amounts[k] >= 0.0
    ensures Total(amounts) >= 0.0
    decreases |amounts|
  {
    if amounts != [] {
      assert amounts[0] >= 0.0;
      TotalNonNegative(amounts[1..]);
    }
  }
}
