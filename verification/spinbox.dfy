/** A bounded integer input: a text field between a decrease and an increase arrow. The
    caller owns the value and is told of every new in-range value; the box keeps the
    text being edited, the last in-range value and whether to show the range message. */
module SpinBoxes {
  import opened Numerals

  /** The text reads as an `Int` within the bounds. */
  predicate Accepts(text: string, minValue: int, maxValue: int) {
    ParseInt(text).Some? && minValue <= ParseInt(text).value <= maxValue
  }

  /** The message shown under an out-of-range entry. */
  function RangeMessage(minValue: int, maxValue: int): string {
    "Allowed range: " + DecimalText(minValue) + " - " + DecimalText(maxValue)
  }

  class SpinBox {
    const minValue: int
    const maxValue: int
    /** The caller's value; `onValueChange` is the only way the box changes it. */
    var value: int
    var textValue: string
    var lastValidValue: int
    var isOutOfRange: bool

    /** The last valid value is in range and is the caller's value; the range message
        shows exactly when the text is not an in-range number, and an in-range text is
        the last valid value. */
    ghost predicate Valid()
      reads this
    {
      && IsInt32(minValue) && IsInt32(maxValue)
      && minValue <= lastValidValue <= maxValue
      && value == lastValidValue
      && (isOutOfRange <==> !Accepts(textValue, minValue, maxValue))
      && (Accepts(textValue, minValue, maxValue) ==> ParseInt(textValue).value == lastValidValue)
    }

    /** The box opens showing the caller's value, which lies within the bounds. */
    constructor (value: int, minValue: int, maxValue: int)
      requires IsInt32(minValue) && IsInt32(maxValue) && minValue <= value <= maxValue
      ensures Valid()
      ensures this.minValue == minValue && this.maxValue == maxValue && this.value == value
      ensures textValue == DecimalText(value) && lastValidValue == value && !isOutOfRange
    {
      this.minValue := minValue;
      this.maxValue := maxValue;
      this.value := value;
      textValue := DecimalText(value);
      lastValidValue := value;
      isOutOfRange := false;
      ParseDecimalText(value);
    }

    /** The decrease arrow is enabled above the minimum, so it is disabled exactly at the
        minimum. */
    predicate DecreaseEnabled()
      reads this
      ensures Valid() ==> (DecreaseEnabled() <==> value != minValue)
    {
      value > minValue
    }

    /** The increase arrow is enabled below the maximum, so it is disabled exactly at the
        maximum. */
    predicate IncreaseEnabled()
      reads this
      ensures Valid() ==> (IncreaseEnabled() <==> value != maxValue)
    {
      value < maxValue
    }

    /** The range message, when it is shown. */
    function ShownMessage(): Option<string>
      reads this
    {
      if isOutOfRange then Some(RangeMessage(minValue, maxValue)) else None
    }

    /** Sets the caller's value and the text to an in-range value. */
    method Step(newValue: int)
      requires Valid() && minValue <= newValue <= maxValue
      modifies this
      ensures Valid()
      ensures value == newValue && lastValidValue == newValue
      ensures textValue == DecimalText(newValue) && !isOutOfRange
    {
      textValue := DecimalText(newValue);
      lastValidValue := newValue;
      value := newValue;
      isOutOfRange := false;
      ParseDecimalText(newValue);
    }

    /** The decrease arrow: one less, if above the minimum; otherwise nothing happens. */
    method OnDecrease()
      requires Valid()
      modifies this
      ensures Valid()
      ensures old(value) > minValue ==> value == old(value) - 1 && lastValidValue == value
                                        && textValue == DecimalText(value) && !isOutOfRange
      ensures old(value) <= minValue ==> value == old(value) && lastValidValue == old(lastValidValue)
                                         && textValue == old(textValue) && isOutOfRange == old(isOutOfRange)
    {
      if value > minValue {
        Step(value - 1);
      }
    }

    /** The increase arrow: one more, if below the maximum; otherwise nothing happens. */
    method OnIncrease()
      requires Valid()
      modifies this
      ensures Valid()
      ensures old(value) < maxValue ==> value == old(value) + 1 && lastValidValue == value
                                        && textValue == DecimalText(value) && !isOutOfRange
      ensures old(value) >= maxValue ==> value == old(value) && lastValidValue == old(lastValidValue)
                                         && textValue == old(textValue) && isOutOfRange == old(isOutOfRange)
    {
      if value < maxValue {
        Step(value + 1);
      }
    }

    /** Editing the text: an in-range number becomes the value at once, anything else
        only raises the range message. */
    method OnTextChange(text: string)
      requires Valid()
      modifies this
      ensures Valid()
      ensures textValue == text
      ensures isOutOfRange <==> !Accepts(text, minValue, maxValue)
      ensures Accepts(text, minValue, maxValue) ==> value == ParseInt(text).value && lastValidValue == value
      ensures !Accepts(text, minValue, maxValue) ==> value == old(value) && lastValidValue == old(lastValidValue)
    {
      textValue := text;
      var parsed := ParseInt(text);
      isOutOfRange := if parsed.Some? then !(minValue <= parsed.value <= maxValue) else true;
      if !isOutOfRange && parsed.Some? {
        lastValidValue := parsed.value;
        value := parsed.value;
        isOutOfRange := false;
      }
    }

    /** Leaving the field with text that is not an in-range number puts back the last
        valid value and hides the message; after leaving, the text is always valid. */
    method OnFocusChanged(isFocused: bool)
      requires Valid()
      modifies this
      ensures Valid()
      ensures value == old(value) && lastValidValue == old(lastValidValue)
      ensures !isFocused && !Accepts(old(textValue), minValue, maxValue)
              ==> textValue == DecimalText(lastValidValue) && !isOutOfRange
      ensures isFocused || Accepts(old(textValue), minValue, maxValue)
              ==> textValue == old(textValue) && isOutOfRange == old(isOutOfRange)
      ensures !isFocused ==> Accepts(textValue, minValue, maxValue) && !isOutOfRange
    {
      if !isFocused {
        var parsed := ParseInt(textValue);
        if parsed.None? || !(minValue <= parsed.value <= maxValue) {
          textValue := DecimalText(lastValidValue);
          isOutOfRange := false;
          ParseDecimalText(lastValidValue);
        }
      }
    }
  }

  /** "100" reads as the number 100. */
  lemma HundredText()
    ensures ParseInt("100") == Some(100)
  {
    assert "100" == DecimalText(100);
    ParseDecimalText(100);
  }

  /** The sequence-length box (3 to 6, starting at 4): typing 100 shows
      "Allowed range: 3 - 6" and keeps the value; typing 3 disables only the decrease
      arrow and typing 6 only the increase arrow; from 4 the arrows step to 5 and back. */
  method SpinBoxScenario() returns (message: Option<string>, kept: int, atMin: (bool, bool),
                                    atMax: (bool, bool), up: string, down: string)
    ensures message == Some("Allowed range: 3 - 6") && kept == 4
    ensures atMin == (false, true) && atMax == (true, false)
    ensures up == "5" && down == "4"
  {
    var box := new SpinBox(4, 3, 6);
    box.OnTextChange("");
    HundredText();
    box.OnTextChange("100");
    assert box.isOutOfRange && box.value == 4;
    assert DecimalText(3) == "3" && DecimalText(6) == "6";
    assert RangeMessage(3, 6) == "Allowed range: 3 - 6";
    message, kept := box.ShownMessage(), box.value;
    ParseDecimalText(3);
    box.OnTextChange("3");
    atMin := (box.DecreaseEnabled(), box.IncreaseEnabled());
    ParseDecimalText(6);
    box.OnTextChange("6");
    atMax := (box.DecreaseEnabled(), box.IncreaseEnabled());
    ParseDecimalText(4);
    box.OnTextChange("4");
    box.OnIncrease();
    up := box.textValue;
    box.OnDecrease();
    down := box.textValue;
  }
}
