/** One single-player game: a fixed secret, an attempt counter and a solved flag. */
module Games {
  import opened Checker
  import opened Config

  /** The secret is `sequenceLength` symbols, each one of the configured colours. */
  ghost predicate SecretFits(settings: Settings, secret: seq<string>) {
    && |secret| == settings.sequenceLength
    && forall i :: 0 <= i < |secret| ==> secret[i] in settings.colorsList
  }

  /** A guess solves the game when every position is right. The guess may be shorter than
      the secret but not longer, since the checker reads the secret at every guess index. */
  predicate Solves(settings: Settings, secret: seq<string>, guess: seq<string>)
    requires |guess| <= |secret|
  {
    Score(secret, guess).correct == settings.sequenceLength
  }

  /** Against a secret of the configured length, a guess solves the game exactly when it is
      the secret. */
  lemma SolvesIffSecret(settings: Settings, secret: seq<string>, guess: seq<string>)
    requires |secret| == settings.sequenceLength && |guess| <= |secret|
    ensures Solves(settings, secret, guess) <==> guess == secret
  {
    ExactMatchesCountsPositions(secret, guess, |guess|);
    if |guess| == |secret| {
      SolvedIffSecret(secret, guess);
    } else {
      assert |guess| < |secret|;
      ScoreBound(secret, guess);
    }
  }

  /** The feedback for each guess in turn. */
  function ScoreAll(secret: seq<string>, guesses: seq<seq<string>>): (r: seq<Feedback>)
    requires forall k :: 0 <= k < |guesses| ==> |guesses[k]| <= |secret|
    ensures |r| == |guesses|
  {
    if guesses == [] then []
    else ScoreAll(secret, guesses[..|guesses| - 1]) + [Score(secret, guesses[|guesses| - 1])]
  }

  /** The k-th entry is the score of the k-th guess. */
  lemma {:induction false} ScoreAllAt(secret: seq<string>, guesses: seq<seq<string>>, k: nat)
    requires forall j :: 0 <= j < |guesses| ==> |guesses[j]| <= |secret|
    requires k < |guesses|
    ensures ScoreAll(secret, guesses)[k] == Score(secret, guesses[k])
    decreases |guesses|
  {
    if k < |guesses| - 1 {
      ScoreAllAt(secret, guesses[..|guesses| - 1], k);
    }
  }

  /** Scoring one more guess extends the list by its score. */
  lemma ScoreAllStep(secret: seq<string>, guesses: seq<seq<string>>, n: nat)
    requires forall j :: 0 <= j < |guesses| ==> |guesses[j]| <= |secret|
    requires n < |guesses|
    ensures ScoreAll(secret, guesses[..n + 1]) == ScoreAll(secret, guesses[..n]) + [Score(secret, guesses[n])]
  {
    assert guesses[..n + 1][..n] == guesses[..n];
  }

  class Game {
    const settings: Settings
    const secretCode: seq<string>
    var attempts: int
    var isSolved: bool

    ghost predicate Valid()
      reads this
    {
      Config.Valid(settings) && SecretFits(settings, secretCode) && attempts >= 0
    }

    /** `Game(settings)` with the secret, drawn at random from the colours in the source,
        passed in. */
    constructor (settings: Settings, secret: seq<string>)
      requires Config.Valid(settings) && SecretFits(settings, secret)
      ensures Valid()
      ensures this.settings == settings && secretCode == secret
      ensures attempts == 0 && !isSolved
    {
      this.settings := settings;
      secretCode := secret;
      attempts := 0;
      isSolved := false;
    }

    /** `checkGuess`: scores the guess, records whether it solved the game and counts one
        more attempt. */
    method CheckGuess(guess: seq<string>) returns (feedback: Feedback)
      requires Valid() && |guess| <= |secretCode|
      modifies this
      ensures Valid()
      ensures feedback == Score(secretCode, guess)
      ensures attempts == old(attempts) + 1
      ensures isSolved <==> feedback.correct == settings.sequenceLength
      ensures isSolved <==> guess == secretCode
    {
      feedback := Checker.CheckGuess(secretCode, guess);
      SolvesIffSecret(settings, secretCode, guess);
      isSolved := feedback.correct == settings.sequenceLength;
      attempts := attempts + 1;
    }

    /** `isGameOver`: the attempts are used up or the last guess was right. */
    predicate IsGameOver()
      reads this
      ensures isSolved ==> IsGameOver()
      ensures Valid() && !IsGameOver() ==> !isSolved && 0 <= attempts < settings.maxAttempts
    {
      attempts >= settings.maxAttempts || isSolved
    }

    /** `getSecretCode`: the secret, unchanged. */
    function GetSecretCode(): (s: seq<string>)
      requires Valid()
      reads this
      ensures |s| == settings.sequenceLength
      ensures forall i :: 0 <= i < |s| ==> s[i] in settings.colorsList
    {
      secretCode
    }

    /** The guessing loop of `start`, with the player's guesses supplied as a list instead
        of read from the console: guesses are checked until the game is over or the list
        runs out. Returns how many guesses were used and their feedback. */
    method Play(guesses: seq<seq<string>>) returns (used: nat, feedbacks: seq<Feedback>)
      requires Valid()
      requires forall k :: 0 <= k < |guesses| ==> |guesses[k]| <= |secretCode|
      modifies this
      ensures Valid()
      ensures used <= |guesses| && |feedbacks| == used
      ensures feedbacks == ScoreAll(secretCode, guesses[..used])
      ensures attempts == old(attempts) + used
      ensures IsGameOver() || used == |guesses|
      ensures old(IsGameOver()) ==> used == 0
      ensures old(attempts) < settings.maxAttempts ==> attempts <= settings.maxAttempts
      ensures forall k :: 0 <= k < used - 1 ==> guesses[k] != secretCode
      ensures used > 0 ==> (isSolved <==> guesses[used - 1] == secretCode)
    {
      used := 0;
      feedbacks := [];
      while !IsGameOver() && used < |guesses|
        invariant Valid()
        invariant used <= |guesses| && |feedbacks| == used
        invariant feedbacks == ScoreAll(secretCode, guesses[..used])
        invariant attempts == old(attempts) + used
        invariant used == 0 ==> isSolved == old(isSolved)
        invariant old(IsGameOver()) ==> used == 0
        invariant old(attempts) < settings.maxAttempts ==> attempts <= settings.maxAttempts
        invariant forall k :: 0 <= k < used - 1 ==> guesses[k] != secretCode
        invariant used > 0 ==> (isSolved <==> guesses[used - 1] == secretCode)
        decreases |guesses| - used
      {
        assert used > 0 ==> guesses[used - 1] != secretCode;
        var feedback := CheckGuess(guesses[used]);
        assert isSolved <==> guesses[used] == secretCode;
        feedbacks := feedbacks + [feedback];
        ScoreAllStep(secretCode, guesses, used);
        assert forall k :: 0 <= k < used ==> guesses[k] != secretCode;
        used := used + 1;
      }
    }
  }
}
