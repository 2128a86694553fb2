/**
  The wheel's model object: the menu list and the spin state as fields
  that its methods update in place. The publish/subscribe registry is not
  modelled; `Update` returns the entry it would publish as the result.
 */
module Wheel {

  import opened Wrappers
  import opened Menus
  import JsText
  import Pointer
  import Spin

  class WheelModel {
    var menus: seq<Menu>
    var currentAngle: real                 // turns
    var rotationSpeed: real                // turns per ms
    var isSpinning: bool
    var decelerating: bool
    var decelerationStartTime: Option<int> // None for null
    var lastTimestamp: Option<int>         // `_lastTimestamp`, None while undefined
    const physics: Spin.Physics

    function State(): Spin.Motion
      reads this
    {
      Spin.Motion(isSpinning, decelerating, decelerationStartTime, rotationSpeed, currentAngle)
    }

    function Timing(): Spin.Clock
      reads this
    {
      Spin.Clock(State(), lastTimestamp)
    }

    ghost predicate Valid()
      reads this
    {
      AllPositive(menus) && Spin.Consistent(State())
    }

    constructor (physics: Spin.Physics)
      ensures Valid() && this.physics == physics
      ensures menus == [] && lastTimestamp == None
      ensures State() == Spin.Motion(false, false, None, 0.0, 0.0)
    {
      this.physics := physics;
      menus := [];
      currentAngle, rotationSpeed := 0.0, 0.0;
      isSpinning, decelerating := false, false;
      decelerationStartTime, lastTimestamp := None, None;
    }

    /** `addMenu(name, count)`: append one entry when the name is not blank and the count is a number of at least 1. */
    method AddMenu(name: string, count: Option<int>) returns (ok: bool)
      requires Valid()
      modifies this`menus
      ensures Valid()
      ensures ok == AddAccepted(name, count)
      ensures menus == if ok then old(menus) + [Menu(name, count.value)] else old(menus)
    {
      if name == "" || JsText.Trim(name) == "" || count.None? || count.value < 1 {
        return false;
      }
      menus := menus + [Menu(name, count.value)];
      ok := true;
    }

    method IncreaseMenuCount(index: int) returns (ok: bool)
      requires Valid()
      modifies this`menus
      ensures Valid()
      ensures ok == (0 <= index < |old(menus)|)
      ensures menus == if ok then Increased(old(menus), index) else old(menus)
    {
      if index < 0 || index >= |menus| {
        return false;
      }
      menus := menus[index := menus[index].(count := menus[index].count + 1)];
      ok := true;
    }

    method DecreaseMenuCount(index: int) returns (ok: bool)
      requires Valid()
      modifies this`menus
      ensures Valid()
      ensures ok == (0 <= index < |old(menus)|)
      ensures menus == if ok then Decreased(old(menus), index) else old(menus)
    {
      if index < 0 || index >= |menus| {
        return false;
      }
      menus := menus[index := menus[index].(count := menus[index].count - 1)];
      if menus[index].count < 1 {
        var _ := RemoveMenu(index);
      }
      ok := true;
    }

    method RemoveMenu(index: int) returns (ok: bool)
      modifies this`menus
      ensures old(Valid()) ==> Valid()
      ensures ok == (0 <= index < |old(menus)|)
      ensures menus == if ok then RemoveAt(old(menus), index) else old(menus)
    {
      if index < 0 || index >= |menus| {
        return false;
      }
      menus := menus[..index] + menus[index + 1..];
      ok := true;
    }

    function GetTotalMenuCount(): (total: int)
      reads this
      ensures total == Sum(menus)
    {
      ReduceCounts(menus, 0)
    }

    /** `[...this.menus]`: a copy of the list as it is at the time of the call. */
    method GetMenus() returns (snapshot: seq<Menu>)
      ensures snapshot == menus
    {
      snapshot := menus;
    }

    method StartSpin() returns (ok: bool)
      requires Valid()
      modifies this`isSpinning, this`decelerating, this`rotationSpeed, this`decelerationStartTime
      ensures Valid()
      ensures ok == Spin.CanStartSpin(old(State()), menus != [])
      ensures State() == if ok then Spin.StartSpin(physics, old(State())) else old(State())
    {
      if |menus| == 0 || isSpinning {
        return false;
      }
      isSpinning := true;
      decelerating := false;
      rotationSpeed := physics.v0;
      decelerationStartTime := None;
      ok := true;
    }

    method StartDeceleration() returns (ok: bool)
      requires Valid()
      modifies this`decelerating, this`decelerationStartTime
      ensures Valid()
      ensures ok == Spin.CanDecelerate(old(State()))
      ensures State() == if ok then Spin.StartDeceleration(old(State())) else old(State())
    {
      if !isSpinning || decelerating {
        return false;
      }
      decelerating := true;
      decelerationStartTime := None;
      ok := true;
    }

    /**
      `update(timestamp)`: one animation frame. Nothing happens while idle;
      otherwise the frame runs and the entry under the pointer is returned.
     */
    method Update(timestamp: int) returns (ok: bool, winner: Option<Menu>)
      requires Valid()
      modifies this`currentAngle, this`rotationSpeed, this`isSpinning, this`decelerating,
               this`decelerationStartTime, this`lastTimestamp
      ensures Valid()
      ensures ok == old(isSpinning)
      ensures Timing() == Spin.Frame(Spin.WhileSpinning, physics, old(Timing()), timestamp)
      ensures winner == if ok then Pointer.Winner(menus, currentAngle) else None
    {
      if !isSpinning {
        return false, None;
      }
      if decelerating {
        if !Spin.Truthy(decelerationStartTime) {
          decelerationStartTime := Some(timestamp);
        }
        var elapsed := timestamp - decelerationStartTime.value;
        rotationSpeed := physics.v0 * physics.decay(elapsed);
        if elapsed >= Spin.DecelerationDuration {
          isSpinning := false;
          decelerating := false;
          decelerationStartTime := None;
        }
        assert State() == Spin.Brake(physics, old(State()), timestamp);
      }
      var previous := if Spin.Truthy(lastTimestamp) then lastTimestamp.value else timestamp;
      currentAngle := Pointer.TruncMod1(currentAngle + Spin.Travel(rotationSpeed, timestamp - previous));
      lastTimestamp := Some(timestamp);
      assert State() == Spin.Tick(physics, old(State()), timestamp, Spin.Dt(old(lastTimestamp), timestamp));
      winner := UpdateResult();
      ok := true;
    }

    /**
      `updateResult()`: walk the entries accumulating each one's share of
      the wheel and report the first whose running share reaches the
      pointer fraction; `None` for an empty list.
     */
    method UpdateResult() returns (winner: Option<Menu>)
      requires Valid()
      ensures winner == Pointer.Winner(menus, currentAngle)
    {
      if |menus| == 0 {
        return None;
      }
      var adjusted := Pointer.PointerFraction(currentAngle);
      var total := GetTotalMenuCount();
      SumBound(menus);
      ghost var x := Pointer.Scaled(menus, adjusted);
      var angleSum := 0.0;
      assert menus[..0] == [];
      winner := None;
      for i := 0 to |menus|
        invariant angleSum == Pointer.Share(menus, i)
        invariant Pointer.CoverFrom(menus, x, 0) == Pointer.CoverFrom(menus, x, i)
        invariant winner == None
      {
        Pointer.ShareStep(menus, i);
        angleSum := angleSum + menus[i].count as real / total as real;
        Pointer.ShareTest(menus, adjusted, i + 1);
        if adjusted <= angleSum {
          winner := Some(menus[i]);
          break;
        }
      }
    }
  }
}
