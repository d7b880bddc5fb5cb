/** `IntegerInputDialog`: a keypad that edits a decimal text and submits it
    as an `Int`. The text field also accepts free typing. */
module Keypad {
  import opened Common
  import opened Decimal

  /** `addNumber`: a digit replaces an input of "0" and is appended otherwise. */
  function AddNumber(input: string, d: char): (r: string)
    ensures |r| >= 1 && r[|r| - 1] == d
    ensures input != "0" ==> r[..|r| - 1] == input
  {
    if input == "0" then [d] else input + [d]
  }

  /** The backspace button: a one-character input becomes "0"; otherwise the
      last character is dropped (an empty input stays empty). */
  function Backspace(input: string): (r: string)
    ensures |input| >= 2 ==> input == r + [input[|input| - 1]]
    ensures input != [] ==> r != []
  {
    if |input| == 1 then "0"
    else if input == [] then []
    else input[..|input| - 1]
  }

  /** The clear icon. */
  function Clear(): (r: string)
    ensures Canonical(r) && DigitsValue(r) == 0
  {
    "0"
  }

  /** The reset button, and the text the dialog opens with. */
  function Reset(initialValue: int): (r: string)
    ensures |r| >= 1 && (r[0] == '-' <==> initialValue < 0)
    ensures initialValue >= 0 ==> Canonical(r)
  {
    IntToString(initialValue)
  }

  /** The OK button: `input.toIntOrNull() ?: 0`. */
  function SubmitValue(input: string): (r: int)
    ensures IntMin <= r <= IntMax
    ensures r != 0 ==> ToIntOrNull(input) == Some(r)
  {
    match ToIntOrNull(input)
    case Some(v) => v
    case None => 0
  }

  /** The keypad's buttons. */
  datatype Key = DigitKey(d: char) | BackspaceKey | ClearKey | ResetKey

  predicate KeypadKey(k: Key)
  {
    k.DigitKey? ==> IsDigit(k.d)
  }

  /** One button press. */
  function Press(input: string, initialValue: int, k: Key): (r: string)
    ensures input != [] ==> r != []
  {
    match k
    case DigitKey(d) => AddNumber(input, d)
    case BackspaceKey => Backspace(input)
    case ClearKey => Clear()
    case ResetKey => Reset(initialValue)
  }

  /** The input after pressing `keys` in order. */
  function PressAll(input: string, initialValue: int, keys: seq<Key>): string
  {
    if keys == [] then input
    else Press(PressAll(input, initialValue, keys[..|keys| - 1]), initialValue, keys[|keys| - 1])
  }

  /** Each button keeps a canonical input canonical: non-empty digits with no
      leading zero. Reset does so from an initial value that is not negative. */
  lemma PressCanonical(input: string, initialValue: int, k: Key)
    requires Canonical(input) && initialValue >= 0 && KeypadKey(k)
    ensures Canonical(Press(input, initialValue, k))
  {
    match k
    case DigitKey(d) =>
      var r := AddNumber(input, d);
      if input != "0" {
        assert r[..|input|] == input;
        assert |input| == 1 ==> input[0] != '0';
      }
    case BackspaceKey =>
      if |input| > 1 {
        var r := Backspace(input);
        assert r[0] == input[0];
      }
    case ClearKey =>
    case ResetKey =>
  }

  /** From the text the dialog opens with, and an initial value that is not
      negative, any run of keypad buttons leaves a canonical input. */
  lemma {:induction false} KeypadOnlyCanonical(initialValue: int, keys: seq<Key>)
    requires initialValue >= 0
    requires forall i :: 0 <= i < |keys| ==> KeypadKey(keys[i])
    ensures Canonical(PressAll(Reset(initialValue), initialValue, keys))
  {
    if keys != [] {
      KeypadOnlyCanonical(initialValue, keys[..|keys| - 1]);
      PressCanonical(PressAll(Reset(initialValue), initialValue, keys[..|keys| - 1]), initialValue, keys[|keys| - 1]);
    }
  }

  /** On a canonical input a digit multiplies the value by ten and adds the
      digit, and backspace divides it by ten. */
  lemma KeypadValue(input: string, d: char)
    requires Canonical(input) && IsDigit(d)
    ensures AllDigits(AddNumber(input, d)) && DigitsValue(AddNumber(input, d)) == DigitsValue(input) * 10 + DigitValue(d)
    ensures AllDigits(Backspace(input)) && DigitsValue(Backspace(input)) == DigitsValue(input) / 10
  {
    var r := AddNumber(input, d);
    if input == "0" {
      assert r[..0] == [];
    } else {
      assert r[..|r| - 1] == input;
    }
    if |input| > 1 {
      assert Backspace(input) == input[..|input| - 1];
    } else {
      assert input[..0] == [];
    }
  }

  /** Backspace undoes a digit on a canonical input. */
  lemma BackspaceUndoesDigit(input: string, d: char)
    requires Canonical(input) && IsDigit(d)
    ensures Backspace(AddNumber(input, d)) == input
  {
    if input != "0" {
      assert (input + [d])[..|input|] == input;
    }
  }

  /** OK on a canonical input submits its value, or 0 when that overflows an
      `Int`; on the opening text it submits the initial value. */
  lemma SubmitSpec(input: string, initialValue: int)
    requires IntMin <= initialValue <= IntMax
    ensures Canonical(input) && DigitsValue(input) <= IntMax ==> SubmitValue(input) == DigitsValue(input)
    ensures Canonical(input) && DigitsValue(input) > IntMax ==> SubmitValue(input) == 0
    ensures SubmitValue(Reset(initialValue)) == initialValue
  {
    if Canonical(input) {
      CanonicalToInt(input);
    }
    IntRoundTrip(initialValue);
  }

  /** Free text that is not a number submits 0. */
  lemma SubmitNonNumber(input: string)
    requires forall i :: 0 <= i < |input| ==> !IsDigit(input[i])
    ensures SubmitValue(input) == 0
  {
    if input != [] && (input[0] == '-' || input[0] == '+') && |input| > 1 {
      assert !IsDigit(input[1..][0]);
    }
  }

  /** The dialog's text state. */
  class InputDialog {
    const initialValue: int
    var input: string

    constructor (initialValue: int)
      ensures this.initialValue == initialValue && input == Reset(initialValue)
    {
      this.initialValue := initialValue;
      input := IntToString(initialValue);
    }

    method PressDigit(d: char)
      modifies this
      ensures input == AddNumber(old(input), d)
    {
      if input == "0" {
        input := [d];
      } else {
        input := input + [d];
      }
    }

    method PressBackspace()
      modifies this
      ensures input == Backspace(old(input))
    {
      if |input| == 1 {
        input := "0";
      } else if |input| > 1 {
        input := input[..|input| - 1];
      }
    }

    method PressClear()
      modifies this
      ensures input == Clear()
    {
      input := "0";
    }

    method PressReset()
      modifies this
      ensures input == Reset(initialValue)
    {
      input := IntToString(initialValue);
    }

    /** `onValueChange`: free typing replaces the text. */
    method SetInput(text: string)
      modifies this
      ensures input == text
    {
      input := text;
    }

    method Submit() returns (v: int)
      ensures v == SubmitValue(input)
    {
      var parsed := ToIntOrNull(input);
      v := if parsed.Some? then parsed.value else 0;
    }
  }
}
