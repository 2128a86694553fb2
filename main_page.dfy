/**
  The standalone page script: the same wheel kept in page globals, driven
  by the add form, the per-row ▲/▼/delete buttons, the spin button and an
  animation callback that runs on every frame.
 */
module StandalonePage {

  import opened Wrappers
  import opened Menus
  import JsText
  import Pointer
  import Spin

  /** The form check of the page: trimmed name not empty, parsed count a number of at least 1. */
  predicate FormAccepted(nameInput: string, countInput: string) {
    var count := JsText.ParseInt(countInput);
    JsText.Trim(nameInput) != "" && count.Some? && count.value >= 1
  }

  /**
    The page accepts exactly what the model class's `addMenu` accepts when
    handed the trimmed name and the parsed count, as its view does.
   */
  lemma FormMatchesModel(nameInput: string, countInput: string)
    ensures FormAccepted(nameInput, countInput) <==>
      AddAccepted(JsText.Trim(nameInput), JsText.ParseInt(countInput))
  {
    var name := JsText.Trim(nameInput);
    if name != "" {
      assert !JsText.IsJsSpace(name[0]);
      assert !JsText.AllSpace(name);
    }
  }

  /** A count typed with a minus sign is never accepted, `-0` included. */
  lemma NegativeCountRejected(nameInput: string, n: nat, rest: string)
    requires JsText.NumeralEnd(n, rest)
    ensures !FormAccepted(nameInput, "-" + (JsText.DecimalString(n) + rest))
  {
    JsText.ParseNegativeDecimal(n, rest);
  }

  /** A count with no decimal digit in it parses to `NaN` and is never accepted. */
  lemma NoDigitCountRejected(nameInput: string, countInput: string)
    requires forall i :: 0 <= i < |countInput| ==> !JsText.IsAsciiDigit(countInput[i])
    ensures !FormAccepted(nameInput, countInput)
  {
    JsText.NoDigitIsNaN(countInput);
  }

  /** What the result box shows. */
  datatype Shown =
    | Initial            // the page's initial text, before any frame
    | NoEntry            // "no entry"
    | Entry(name: string)

  class Page {
    var nameInput: string
    var countInput: string
    var menus: seq<Menu>
    var currentAngle: real
    var rotationSpeed: real
    var isSpinning: bool
    var decelerating: bool
    var decelerationStartTime: Option<int>
    var lastTime: Option<int>
    var result: Shown
    const physics: Spin.Physics

    function State(): Spin.Motion
      reads this
    {
      Spin.Motion(isSpinning, decelerating, decelerationStartTime, rotationSpeed, currentAngle)
    }

    function Timing(): Spin.Clock
      reads this
    {
      Spin.Clock(State(), lastTime)
    }

    ghost predicate Valid()
      reads this
    {
      AllPositive(menus) && Spin.Consistent(State())
    }

    /** The globals as the script declares them; the form fields hold what the user typed. */
    constructor (physics: Spin.Physics, nameInput: string, countInput: string)
      ensures Valid() && this.physics == physics
      ensures this.nameInput == nameInput && this.countInput == countInput
      ensures menus == [] && lastTime == None && result == Initial
      ensures State() == Spin.Motion(false, false, None, 0.0, 0.0)
    {
      this.physics := physics;
      this.nameInput, this.countInput := nameInput, countInput;
      menus := [];
      currentAngle, rotationSpeed := 0.0, 0.0;
      isSpinning, decelerating := false, false;
      decelerationStartTime, lastTime := None, None;
      result := Initial;
    }

    /** `addMenu()`: read the form, append the entry and reset the form when it is accepted. */
    method AddMenu()
      requires Valid()
      modifies this`menus, this`nameInput, this`countInput
      ensures Valid()
      ensures var ok := FormAccepted(old(nameInput), old(countInput));
        && menus == (if ok then old(menus) + [Menu(JsText.Trim(old(nameInput)), JsText.ParseInt(old(countInput)).value)]
                     else old(menus))
        && (nameInput, countInput) == (if ok then ("", "1") else (old(nameInput), old(countInput)))
    {
      var name := JsText.Trim(nameInput);
      var count := JsText.ParseInt(countInput);
      if name == "" || count.None? || count.value < 1 {
        return;
      }
      menus := menus + [Menu(name, count.value)];
      nameInput := "";
      countInput := "1";
    }

    /** The ▲ button of row `index`. */
    method IncreaseClick(index: nat)
      requires Valid() && index < |menus|
      modifies this`menus
      ensures Valid()
      ensures menus == Increased(old(menus), index)
    {
      menus := menus[index := menus[index].(count := menus[index].count + 1)];
    }

    /** The ▼ button of row `index`: decrement, and drop the row once its count is below 1. */
    method DecreaseClick(index: nat)
      requires Valid() && index < |menus|
      modifies this`menus
      ensures Valid()
      ensures menus == Decreased(old(menus), index)
    {
      menus := menus[index := menus[index].(count := menus[index].count - 1)];
      if menus[index].count < 1 {
        menus := menus[..index] + menus[index + 1..];
      }
    }

    /** The delete button of row `index`. */
    method DeleteClick(index: nat)
      requires Valid() && index < |menus|
      modifies this`menus
      ensures Valid()
      ensures menus == RemoveAt(old(menus), index)
    {
      menus := menus[..index] + menus[index + 1..];
    }

    /** The spin button: start when idle and entries exist, otherwise begin to decelerate. */
    method SpinClick()
      requires Valid()
      modifies this`isSpinning, this`decelerating, this`rotationSpeed
      ensures Valid()
      ensures State() == Spin.PageSpinClick(physics, old(State()), menus != [])
    {
      if !isSpinning {
        if |menus| == 0 {
          return;
        }
        isSpinning := true;
        decelerating := false;
        rotationSpeed := physics.v0;
      } else if isSpinning && !decelerating {
        decelerating := true;
      }
    }

    /** `animate(timestamp)`: one frame, which always refreshes `lastTime` and the result box. */
    method Animate(timestamp: int)
      requires Valid()
      modifies this`currentAngle, this`rotationSpeed, this`isSpinning, this`decelerating,
               this`decelerationStartTime, this`lastTime, this`result
      ensures Valid()
      ensures Timing() == Spin.Frame(Spin.EveryFrame, physics, old(Timing()), timestamp)
      ensures menus != [] ==> Pointer.Winner(menus, currentAngle).Some?
      ensures result == if menus == [] then NoEntry else Entry(Pointer.Winner(menus, currentAngle).value.name)
    {
      if !Spin.Truthy(lastTime) {
        lastTime := Some(timestamp);
      }
      var deltaTime := timestamp - lastTime.value;
      lastTime := Some(timestamp);
      Turn(timestamp, deltaTime);
      UpdateResult();
    }

    /** The `if(isSpinning)` block of `animate`: decelerate, then advance the angle by `deltaTime`. */
    method Turn(timestamp: int, deltaTime: int)
      requires Valid()
      modifies this`currentAngle, this`rotationSpeed, this`isSpinning, this`decelerating,
               this`decelerationStartTime
      ensures Valid()
      ensures State() == Spin.Tick(physics, old(State()), timestamp, deltaTime)
    {
      if isSpinning {
        if decelerating {
          if !Spin.Truthy(decelerationStartTime) {
            decelerationStartTime := Some(timestamp);
          }
          var elapsed := timestamp - decelerationStartTime.value;
          rotationSpeed := physics.v0 * physics.decay(elapsed);
          if elapsed >= Spin.DecelerationDuration {
            isSpinning := false;
            decelerating := false;
            decelerationStartTime := None;
          }
          assert State() == Spin.Brake(physics, old(State()), timestamp);
        }
        currentAngle := Pointer.TruncMod1(currentAngle + Spin.Travel(rotationSpeed, deltaTime));
      }
    }

    /**
      `updateResult()`: "no entry" for an empty list, otherwise the first
      entry whose running share reaches the pointer fraction. With exact
      arithmetic some entry always does.
     */
    method UpdateResult()
      requires Valid()
      modifies this`result
      ensures menus != [] ==> Pointer.Winner(menus, currentAngle).Some?
      ensures result == if menus == [] then NoEntry else Entry(Pointer.Winner(menus, currentAngle).value.name)
    {
      if |menus| == 0 {
        result := NoEntry;
        return;
      }
      var adjusted := Pointer.PointerFraction(currentAngle);
      var total := ReduceCounts(menus, 0);
      SumBound(menus);
      ghost var x := Pointer.Scaled(menus, adjusted);
      var angleSum := 0.0;
      assert menus[..0] == [];
      for i := 0 to |menus|
        invariant angleSum == Pointer.Share(menus, i)
        invariant Pointer.CoverFrom(menus, x, 0) == Pointer.CoverFrom(menus, x, i)
        invariant result == old(result)
      {
        Pointer.ShareStep(menus, i);
        angleSum := angleSum + menus[i].count as real / total as real;
        Pointer.ShareTest(menus, adjusted, i + 1);
        if adjusted <= angleSum {
          assert Pointer.Winner(menus, currentAngle) == Some(menus[i]);
          result := Entry(menus[i].name);
          return;
        }
      }
      Pointer.WinnerExists(menus, currentAngle);
      assert false;
    }
  }
}
