/** The colour-list field of the settings dialog: the text the player types, how it is
    turned into a list of colour names, and when that list is handed to the game. */
module SettingsView {
  import opened Words
  import opened Sequences
  import opened Config

  const INVALID_FORMAT_MESSAGE: string := "Invalid format. Please enter colors separated by spaces."

  predicate IsUpperLetter(c: char) {
    'A' <= c <= 'Z'
  }

  /** A colour name matches `^[A-Z]+$`: one or more capital letters A to Z. */
  predicate IsColorToken(s: string) {
    |s| > 0 && forall i :: 0 <= i < |s| ==> IsUpperLetter(s[i])
  }

  /** `validateColorsList`: every name is a colour token, the count is within the colour
      bounds, and `toSet()` is as large as the list. */
  predicate ValidateColorsList(colors: seq<string>)
    ensures ValidateColorsList(colors) ==> Distinct(colors)
  {
    DistinctIffElementsSize(colors);
    && (forall k :: 0 <= k < |colors| ==> IsColorToken(colors[k]))
    && MIN_COLORS <= |colors| <= MAX_COLORS
    && |Elements(colors)| == |colors|
  }

  /** The validator accepts exactly the lists of 3 to 8 distinct colour tokens. */
  lemma ValidateIffDistinctTokens(colors: seq<string>)
    ensures ValidateColorsList(colors) <==>
              (&& (forall k :: 0 <= k < |colors| ==> IsColorToken(colors[k]))
               && MIN_COLORS <= |colors| <= MAX_COLORS
               && Distinct(colors))
  {
    DistinctIffElementsSize(colors);
  }

  /** Every list the validator accepts meets the colour requirements of `Settings`: with
      valid length and attempts it builds a settings object. */
  lemma AcceptedListMakesSettings(sequenceLength: int, maxAttempts: int, colors: seq<string>)
    requires MIN_SEQ_LENGTH <= sequenceLength <= MAX_SEQ_LENGTH
    requires MIN_ATTEMPTS <= maxAttempts <= MAX_ATTEMPTS
    requires ValidateColorsList(colors)
    ensures MakeSettings(sequenceLength, maxAttempts, colors) == Success(Settings(sequenceLength, maxAttempts, colors))
  {
  }

  /** `pieces.map(String::trim)`. */
  function TrimAll(pieces: seq<string>): (r: seq<string>)
    ensures |r| == |pieces|
    ensures forall k :: 0 <= k < |pieces| ==> r[k] == Trim(pieces[k])
  {
    if pieces == [] then [] else [Trim(pieces[0])] + TrimAll(pieces[1..])
  }

  /** Trimming pieces that have nothing to trim changes nothing. */
  lemma {:induction false} TrimAllUnchanged(pieces: seq<string>)
    requires forall k :: 0 <= k < |pieces| ==> Trim(pieces[k]) == pieces[k]
    ensures TrimAll(pieces) == pieces
  {
    if pieces != [] {
      TrimAllUnchanged(pieces[1..]);
      assert pieces == [pieces[0]] + pieces[1..];
    }
  }

  /** `text.uppercase().split(" ").map(String::trim)`. */
  function ColorsInput(text: string): (colors: seq<string>)
    ensures |colors| > 0
    ensures text == [] ==> colors == [[]]
  {
    TrimAll(Split(Uppercase(text), SPACE))
  }

  /** Case does not matter: typed text and its upper-case form give the same list. */
  lemma ColorsInputIgnoresCase(text: string)
    ensures ColorsInput(text) == ColorsInput(Uppercase(text))
  {
    UppercaseIdempotent(text);
  }

  /** Text with two spaces in a row is rejected: the empty piece between them is not a
      colour name. */
  lemma DoubleSpaceRejected(text: string, i: nat)
    requires i + 1 < |text| && text[i] == SPACE && text[i + 1] == SPACE
    ensures !ValidateColorsList(ColorsInput(text))
  {
    var upper := Uppercase(text);
    SplitEmptyPiece(upper, SPACE, i);
    var pieces := Split(upper, SPACE);
    var k :| 1 <= k < |pieces| && pieces[k] == [];
    assert ColorsInput(text)[k] == Trim([]);
  }

  /** Joining an accepted list with spaces, as the dialog does to show the current list,
      and reading the text back gives the same list. */
  lemma JoinedListReadsBack(colors: seq<string>)
    requires forall k :: 0 <= k < |colors| ==> IsColorToken(colors[k])
    requires |colors| > 0
    ensures ColorsInput(Join(colors, SPACE)) == colors
  {
    var text := Join(colors, SPACE);
    forall k | 0 <= k < |colors|
      ensures Avoids(colors[k], SPACE) && Trim(colors[k]) == colors[k]
      ensures forall i :: 0 <= i < |colors[k]| ==> !IsLower(colors[k][i])
    {
      TokenUnchanged(colors[k]);
    }
    JoinNoLower(colors, SPACE);
    UppercaseUnchanged(text);
    SplitJoin(colors, SPACE);
    TrimAllUnchanged(colors);
  }

  /** A colour token contains no space, no whitespace and no lower-case letter. */
  lemma TokenUnchanged(token: string)
    requires IsColorToken(token)
    ensures Avoids(token, SPACE) && Trim(token) == token
    ensures forall i :: 0 <= i < |token| ==> !IsLower(token[i])
  {
    TrimUnchanged(token);
  }

  /** Lower-case input is read in capitals: "a b c" reads as the list A, B, C. */
  lemma LowercaseReadsAsCapitals()
    ensures ColorsInput("a b c") == ["A", "B", "C"]
  {
    assert Uppercase("a b c") == "A B C";
    assert Join(["A", "B", "C"], SPACE) == "A B C";
    JoinedListReadsBack(["A", "B", "C"]);
  }

  /** ... and is accepted. */
  lemma LowercaseAccepted()
    ensures ValidateColorsList(ColorsInput("a b c"))
  {
    var abc := ["A", "B", "C"];
    ValidateIffDistinctTokens(abc);
    assert ValidateColorsList(abc);
    LowercaseReadsAsCapitals();
  }

  /** The state behind the colour-list text field. `colorsList` is the list the dialog
      was given; `onColorsListChange` replaces it in the caller, so here the handler
      assigns it directly. */
  class ColorsField {
    var colorsList: seq<string>
    var selectedColorsList: string
    var errorMessage: string
    var isInputValid: bool

    /** The current list always passed the validator, and while the field is marked
        valid its text reads as exactly that list. */
    ghost predicate Valid()
      reads this
    {
      && ValidateColorsList(colorsList)
      && (isInputValid ==> ColorsInput(selectedColorsList) == colorsList)
    }

    /** The field opens showing the current list joined with spaces and no error. */
    constructor (colorsList: seq<string>)
      requires ValidateColorsList(colorsList)
      ensures Valid()
      ensures this.colorsList == colorsList && selectedColorsList == Join(colorsList, SPACE)
      ensures errorMessage == " " && isInputValid
    {
      this.colorsList := colorsList;
      selectedColorsList := Join(colorsList, SPACE);
      errorMessage := " ";
      isInputValid := true;
      JoinedListReadsBack(colorsList);
    }

    /** `onValueChange`: keeps the typed text; a valid list replaces the current one and
        clears the error, an invalid one only shows the error. */
    method OnValueChange(text: string)
      requires Valid()
      modifies this
      ensures Valid()
      ensures selectedColorsList == text
      ensures isInputValid <==> ValidateColorsList(ColorsInput(text))
      ensures isInputValid ==> colorsList == ColorsInput(text) && errorMessage == " "
      ensures !isInputValid ==> colorsList == old(colorsList) && errorMessage == INVALID_FORMAT_MESSAGE
    {
      selectedColorsList := text;
      var listOfColors := ColorsInput(text);
      isInputValid := ValidateColorsList(listOfColors);
      if isInputValid {
        errorMessage := " ";
        colorsList := listOfColors;
      } else {
        errorMessage := INVALID_FORMAT_MESSAGE;
      }
    }

    /** `onFocusChanged`: leaving the field while the text is invalid shows the error. */
    method OnFocusChanged(isFocused: bool)
      requires Valid()
      modifies this
      ensures Valid()
      ensures errorMessage == if !isFocused && !isInputValid then INVALID_FORMAT_MESSAGE else old(errorMessage)
      ensures colorsList == old(colorsList) && selectedColorsList == old(selectedColorsList)
      ensures isInputValid == old(isInputValid)
    {
      if !isFocused && !isInputValid {
        errorMessage := INVALID_FORMAT_MESSAGE;
      }
    }

    /** The reset button: shows the current list again and clears the message. The
        validity flag is left as it was. */
    method OnReset()
      requires Valid()
      modifies this
      ensures Valid()
      ensures selectedColorsList == Join(colorsList, SPACE)
      ensures ColorsInput(selectedColorsList) == colorsList
      ensures errorMessage == ""
      ensures colorsList == old(colorsList) && isInputValid == old(isInputValid)
    {
      selectedColorsList := Join(colorsList, SPACE);
      errorMessage := "";
      JoinedListReadsBack(colorsList);
    }
  }

  /** Typing an invalid list and then pressing reset shows the current list again, but
      the field stays marked invalid, so the apply button stays disabled until the text
      is edited. */
  method ResetAfterInvalidScenario(colors: seq<string>, text: string) returns (shown: string, valid: bool)
    requires ValidateColorsList(colors)
    requires !ValidateColorsList(ColorsInput(text))
    ensures shown == Join(colors, SPACE) && ColorsInput(shown) == colors
    ensures !valid
  {
    var field := new ColorsField(colors);
    field.OnValueChange(text);
    field.OnReset();
    shown, valid := field.selectedColorsList, field.isInputValid;
  }
}
