/**
 * A health pack of feb-13 (Entities/HealthPack.js): a one-shot latch. The
 * pack's model arrives from an asynchronous load; the model records only
 * whether it has arrived, whether it is visible and whether it is in the
 * scene.
 */
module HealthPack {

  /** What `collect` and `remove` read and change. */
  datatype Pack = Pack(used: bool, loaded: bool, visible: bool, inScene: bool)

  /** `collect()`: the first call marks the pack used and hides its model if loaded; later calls do nothing. */
  function Collected(p: Pack): (Pack, bool) {
    if !p.used then (Pack(true, p.loaded, if p.loaded then false else p.visible, p.inScene), true)
    else (p, false)
  }

  class HealthPack {
    const id: int
    var used: bool
    /** Whether the model has loaded (`this.model` is set). */
    var loaded: bool
    /** The model's `visible` flag. */
    var visible: bool
    /** Whether the model was added to the scene and not yet removed. */
    var inScene: bool

    function State(): Pack
      reads this
    {
      Pack(used, loaded, visible, inScene)
    }

    /** A new pack is unused and has no model yet. */
    constructor (id: int)
      ensures this.id == id && State() == Pack(false, false, false, false)
    {
      this.id := id;
      used := false;
      loaded := false;
      visible := false;
      inScene := false;
    }

    /** `collect()`: whether this call took the pack. */
    method Collect() returns (collected: bool)
      modifies this
      ensures (State(), collected) == Collected(old(State()))
    {
      if !used {
        used := true;
        if loaded {
          visible := false;
        }
        return true;
      }
      return false;
    }

    /** `remove()`: takes the model, if loaded, out of the scene. */
    method Remove()
      modifies this
      ensures State() == old(State()).(inScene := if loaded then false else old(inScene))
    {
      if loaded {
        inScene := false;
      }
    }
  }

  /** The results of a run of `collect` calls. */
  function Collects(p: Pack, n: nat): (rs: seq<bool>)
    ensures |rs| == n
    decreases n
  {
    if n == 0 then [] else
      var (p1, r) := Collected(p);
      [r] + Collects(p1, n - 1)
  }

  /** Collecting once marks the pack used and hides its model if loaded; `used` never goes back. */
  lemma CollectLatches(p: Pack)
    ensures var (p1, r) := Collected(p);
            p1.used && (r <==> !p.used) &&
            (r ==> p1 == p.(used := true, visible := p.visible && !p.loaded)) &&
            (!r ==> p1 == p)
  {
  }

  /** Of any run of calls, only the first can take the pack, and it does exactly when the pack is unused. */
  lemma {:induction false} OnlyFirstCollects(p: Pack, n: nat)
    ensures forall k :: 0 <= k < n ==> Collects(p, n)[k] == (k == 0 && !p.used)
    decreases n
  {
    if n > 0 {
      var (p1, r) := Collected(p);
      UsedCollectsNothing(p1, n - 1);
      assert Collects(p, n) == [r] + Collects(p1, n - 1);
    }
  }

  lemma {:induction false} UsedCollectsNothing(p: Pack, n: nat)
    requires p.used
    ensures forall k :: 0 <= k < n ==> !Collects(p, n)[k]
    decreases n
  {
    if n > 0 {
      UsedCollectsNothing(p, n - 1);
      assert Collects(p, n) == [false] + Collects(p, n - 1);
    }
  }
}
