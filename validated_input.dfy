/**
 * `useValidatedInput`: a text field meant to hold a number between `min`
 * and `max`. A keystroke is accepted or rejected as a whole; leaving the
 * field clamps its number into range and rounds it to an integer.
 */
module ValidatedInput {
  import opened Js

  /** Whether `handleChange` takes `text`: the empty text, or a number
      between 0 and `max`. The lower bound is 0 whatever `min` is. */
  predicate Accepts(text: string, max: int)
  {
    text == "" || (AtLeast(Number(text), 0.0) && AtMost(Number(text), max as real))
  }

  /** `Math.round(x).toString()`. */
  function RoundedText(x: JsNumber): string
  {
    match x
    case Finite(v) => IntegerText(Round(v))
    case NaN => "NaN"
    case PosInfinity => "Infinity"
    case NegInfinity => "-Infinity"
  }

  /** The text `handleBlur` leaves in a field that held `text`. */
  function Blurred(text: string, min: int, max: int): string
  {
    if text == "" then IntegerText(min)
    else if Below(Number(text), min as real) then IntegerText(min)
    else if Above(Number(text), max as real) then IntegerText(max)
    else RoundedText(Number(text))
  }

  /** A keystroke is accepted exactly when the text is empty or reads as a
      finite number in [0, max]: NaN and the infinities are rejected. */
  lemma AcceptsExactly(text: string, max: int)
    ensures Accepts(text, max) <==>
      text == "" || (Number(text).Finite? && 0.0 <= Number(text).value <= max as real)
  {
  }

  /** Leaving a field that holds nothing or a number (not NaN) always
      leaves an integer in [min, max] in it: `min` for an empty field or a
      number below range, `max` for one above, and otherwise the nearest
      integer, a half rounded up. */
  lemma BlurredIsIntegerInRange(text: string, min: int, max: int)
    requires min <= max
    requires Number(text) != NaN
    ensures Number(Blurred(text, min, max)).Finite?
    ensures var r := Number(Blurred(text, min, max)).value;
      r == r.Floor as real && min as real <= r <= max as real
    ensures text == "" || Below(Number(text), min as real) ==>
      Number(Blurred(text, min, max)) == Finite(min as real)
    ensures text != "" && Above(Number(text), max as real) ==>
      Number(Blurred(text, min, max)) == Finite(max as real)
    ensures text != "" && Number(text).Finite? && min as real <= Number(text).value <= max as real ==>
      var r := Number(Blurred(text, min, max)).value;
      r - 0.5 <= Number(text).value < r + 0.5
  {
    var x := Number(text);
    if text == "" || Below(x, min as real) {
      NumberOfIntegerText(min);
    } else if Above(x, max as real) {
      NumberOfIntegerText(max);
    } else {
      var k := Round(x.value);
      assert min <= k <= max;
      NumberOfIntegerText(k);
    }
  }

  /** Leaving the field a second time changes nothing. */
  lemma BlurIdempotent(text: string, min: int, max: int)
    requires min <= max
    ensures Blurred(Blurred(text, min, max), min, max) == Blurred(text, min, max)
  {
    var x := Number(text);
    if text != "" && x == NaN {
      assert Blurred(text, min, max) == "NaN";
      assert !IsDigit('N') && 'N' != '-' && 'N' != '+';
      assert Number("NaN") == NaN;
    } else {
      BlurredIsIntegerInRange(text, min, max);
      var once := Blurred(text, min, max);
      var k := Number(once).value.Floor;
      assert once == IntegerText(k) by {
        if text == "" || Below(x, min as real) {
          NumberOfIntegerText(min);
        } else if Above(x, max as real) {
          NumberOfIntegerText(max);
        } else {
          NumberOfIntegerText(Round(x.value));
        }
      }
      NumberOfIntegerText(k);
      RoundOfInteger(k);
    }
  }

  /** The state of one `useValidatedInput` field. */
  class InputState {
    var value: string
    const min: int
    const max: int

    /** The field holds nothing, or text that reads as a finite number. */
    predicate HoldsNumber()
      reads this
    {
      value == "" || Number(value).Finite?
    }

    constructor (initialValue: string, min: int, max: int)
      ensures value == initialValue && this.min == min && this.max == max
    {
      value := initialValue;
      this.min := min;
      this.max := max;
    }

    /** `handleChange`: take the new text if it is acceptable, otherwise
        keep the old one. */
    method HandleChange(newValue: string)
      modifies this
      ensures value == if Accepts(newValue, max) then newValue else old(value)
      ensures old(HoldsNumber()) ==> HoldsNumber()
    {
      if newValue == "" || (AtLeast(Number(newValue), 0.0) && AtMost(Number(newValue), max as real)) {
        value := newValue;
      }
    }

    /** `handleBlur`: clamp into [min, max] and round. */
    method HandleBlur()
      modifies this
      ensures value == Blurred(old(value), min, max)
      ensures old(HoldsNumber()) ==> HoldsNumber()
    {
      var numValue := Number(value);
      if value == "" {
        value := IntegerText(min);
        NumberOfIntegerText(min);
      } else if Below(numValue, min as real) {
        value := IntegerText(min);
        NumberOfIntegerText(min);
      } else if Above(numValue, max as real) {
        value := IntegerText(max);
        NumberOfIntegerText(max);
      } else if value != "" {
        value := RoundedText(numValue);
        if numValue.Finite? {
          NumberOfIntegerText(Round(numValue.value));
        }
      }
    }
  }
}
