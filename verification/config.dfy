/** Game settings: the bounds and defaults of the application and the checks the
    `Settings` constructor makes before a settings object exists. */
module Config {
  import opened Sequences

  const MAX_SEQ_LENGTH: int := 6
  const MIN_SEQ_LENGTH: int := 3
  const MAX_ATTEMPTS: int := 20
  const MIN_ATTEMPTS: int := 3
  const MAX_COLORS: int := 8
  const MIN_COLORS: int := 3
  const DEFAULT_SEQ_LENGTH: int := 4
  const DEFAULT_ATTEMPTS: int := 10
  const DEFAULT_COLORS_LIST: seq<string> := ["A", "B", "C", "D", "E", "F"]

  const SEQ_LENGTH_MESSAGE: string := "Sequence length should be from 3 to 6"
  const ATTEMPTS_MESSAGE: string := "Maximum number of attempts should be from 3 to 20"
  const COLORS_COUNT_MESSAGE: string := "Number of colors should be from 3 to 8"
  const COLORS_UNIQUE_MESSAGE: string := "Colors should be unique"

  /** A constructed object, or the message of the first `require` that failed. */
  datatype Result<T> = Success(value: T) | Failure(error: string)

  datatype Settings = Settings(sequenceLength: int, maxAttempts: int, colorsList: seq<string>)
  {
    /** `numberOfColors`: the length of the colour list. */
    function NumberOfColors(): nat {
      |colorsList|
    }
  }

  /** The four requirements of the constructor, in the form it checks them. */
  predicate Valid(s: Settings) {
    && MIN_SEQ_LENGTH <= s.sequenceLength <= MAX_SEQ_LENGTH
    && MIN_ATTEMPTS <= s.maxAttempts <= MAX_ATTEMPTS
    && MIN_COLORS <= s.NumberOfColors() <= MAX_COLORS
    && |Elements(s.colorsList)| == s.NumberOfColors()
  }

  /** `Settings(sequenceLength, maxAttempts, colorsList)`: the requirements are checked in
      order and the first one that fails aborts construction with its message. */
  function MakeSettings(sequenceLength: int, maxAttempts: int, colorsList: seq<string>): (r: Result<Settings>)
    ensures r.Success? <==> Valid(Settings(sequenceLength, maxAttempts, colorsList))
    ensures r.Success? ==> r.value.colorsList == colorsList && r.value.NumberOfColors() == |colorsList|
    ensures r.Success? ==> r.value.sequenceLength == sequenceLength && r.value.maxAttempts == maxAttempts
    ensures !(MIN_SEQ_LENGTH <= sequenceLength <= MAX_SEQ_LENGTH) ==> r == Failure(SEQ_LENGTH_MESSAGE)
    ensures MIN_SEQ_LENGTH <= sequenceLength <= MAX_SEQ_LENGTH && !(MIN_ATTEMPTS <= maxAttempts <= MAX_ATTEMPTS)
            ==> r == Failure(ATTEMPTS_MESSAGE)
    ensures r.Failure? && MIN_SEQ_LENGTH <= sequenceLength <= MAX_SEQ_LENGTH && MIN_ATTEMPTS <= maxAttempts <= MAX_ATTEMPTS
            ==> r.error == (if MIN_COLORS <= |colorsList| <= MAX_COLORS then COLORS_UNIQUE_MESSAGE else COLORS_COUNT_MESSAGE)
  {
    if !(MIN_SEQ_LENGTH <= sequenceLength <= MAX_SEQ_LENGTH) then Failure(SEQ_LENGTH_MESSAGE)
    else if !(MIN_ATTEMPTS <= maxAttempts <= MAX_ATTEMPTS) then Failure(ATTEMPTS_MESSAGE)
    else if !(MIN_COLORS <= |colorsList| <= MAX_COLORS) then Failure(COLORS_COUNT_MESSAGE)
    else if |Elements(colorsList)| != |colorsList| then Failure(COLORS_UNIQUE_MESSAGE)
    else Success(Settings(sequenceLength, maxAttempts, colorsList))
  }

  /** The uniqueness requirement, `toSet().size == numberOfColors`, says exactly that no
      colour is listed twice. */
  lemma ValidColorsDistinct(s: Settings)
    ensures Valid(s) <==> (&& MIN_SEQ_LENGTH <= s.sequenceLength <= MAX_SEQ_LENGTH
                           && MIN_ATTEMPTS <= s.maxAttempts <= MAX_ATTEMPTS
                           && MIN_COLORS <= |s.colorsList| <= MAX_COLORS
                           && Distinct(s.colorsList))
  {
    DistinctIffElementsSize(s.colorsList);
  }

  /** `DEFAULT_SETTINGS`: four positions, ten attempts, the six colours A to F. */
  const DEFAULT_SETTINGS: Settings := Settings(DEFAULT_SEQ_LENGTH, DEFAULT_ATTEMPTS, DEFAULT_COLORS_LIST)

  /** The default settings pass every check of the constructor. */
  lemma DefaultSettingsValid()
    ensures MakeSettings(DEFAULT_SEQ_LENGTH, DEFAULT_ATTEMPTS, DEFAULT_COLORS_LIST) == Success(DEFAULT_SETTINGS)
  {
    var c := DEFAULT_COLORS_LIST;
    assert Distinct(c) by {
      forall i, j | 0 <= i < j < |c| ensures c[i] != c[j] {
        assert c[i][0] != c[j][0];
      }
    }
    ValidColorsDistinct(DEFAULT_SETTINGS);
  }
}
