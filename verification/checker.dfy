/** Scoring a guess against the secret sequence: how many symbols are in the right
    place, and how many more could be matched by moving them. */
module Checker {

  /** The score of one guess. */
  datatype Feedback = Feedback(correct: int, misplaced: int)

  /** Number of positions below n where the guess equals the secret. */
  function ExactMatches(secret: seq<string>, guess: seq<string>, n: nat): nat
    requires n <= |guess| <= |secret|
  {
    if n == 0 then 0
    else ExactMatches(secret, guess, n - 1) + (if guess[n - 1] == secret[n - 1] then 1 else 0)
  }

  /** The guess symbols at positions below n that do not match the secret. */
  function GuessLeftovers(secret: seq<string>, guess: seq<string>, n: nat): multiset<string>
    requires n <= |guess| <= |secret|
  {
    if n == 0 then multiset{}
    else GuessLeftovers(secret, guess, n - 1)
         + (if guess[n - 1] == secret[n - 1] then multiset{} else multiset{guess[n - 1]})
  }

  /** The secret symbols at positions below n that the guess does not match. */
  function SecretLeftovers(secret: seq<string>, guess: seq<string>, n: nat): multiset<string>
    requires n <= |guess| <= |secret|
  {
    if n == 0 then multiset{}
    else SecretLeftovers(secret, guess, n - 1)
         + (if guess[n - 1] == secret[n - 1] then multiset{} else multiset{secret[n - 1]})
  }

  /** The symbols matched in place at positions below n. */
  function Matched(secret: seq<string>, guess: seq<string>, n: nat): multiset<string>
    requires n <= |guess| <= |secret|
  {
    if n == 0 then multiset{}
    else Matched(secret, guess, n - 1)
         + (if guess[n - 1] == secret[n - 1] then multiset{guess[n - 1]} else multiset{})
  }

  /** The score the checker is meant to give: exact matches, plus, for every symbol, the
      smaller of its counts among the unmatched guess and unmatched secret positions
      (the multiset intersection). Only the first |guess| secret positions take part. */
  function Score(secret: seq<string>, guess: seq<string>): Feedback
    requires |guess| <= |secret|
  {
    Feedback(ExactMatches(secret, guess, |guess|),
             |GuessLeftovers(secret, guess, |guess|) * SecretLeftovers(secret, guess, |guess|)|)
  }

  /** `map.getOrDefault(key, 0)`. */
  function Tally(m: map<string, int>, key: string): int {
    if key in m then m[key] else 0
  }

  /** k copies of one symbol. */
  function Copies(x: string, k: nat): (r: multiset<string>)
    ensures |r| == k
    ensures forall y :: r[y] == if y == x then k else 0
  {
    if k == 0 then multiset{} else Copies(x, k - 1) + multiset{x}
  }

  function Min(a: int, b: int): int {
    if a <= b then a else b
  }

  /** The map holds, for every symbol, its multiplicity in `ms`. */
  ghost predicate TalliesOf(m: map<string, int>, ms: multiset<string>) {
    forall c :: Tally(m, c) == ms[c]
  }

  /** What the first pass knows after the positions below i: the exact count so far and
      the tallies of the unmatched symbols on each side. */
  ghost predicate Scanned(secret: seq<string>, guess: seq<string>, i: nat, correct: int,
                          secretMap: map<string, int>, guessMap: map<string, int>)
  {
    && i <= |guess| <= |secret|
    && correct == ExactMatches(secret, guess, i)
    && TalliesOf(secretMap, SecretLeftovers(secret, guess, i))
    && TalliesOf(guessMap, GuessLeftovers(secret, guess, i))
  }

  lemma ScanMatch(secret: seq<string>, guess: seq<string>, i: nat, correct: int,
                  secretMap: map<string, int>, guessMap: map<string, int>)
    requires Scanned(secret, guess, i, correct, secretMap, guessMap)
    requires i < |guess| && guess[i] == secret[i]
    ensures Scanned(secret, guess, i + 1, correct + 1, secretMap, guessMap)
  {
  }

  lemma ScanMismatch(secret: seq<string>, guess: seq<string>, i: nat, correct: int,
                     secretMap: map<string, int>, guessMap: map<string, int>)
    requires Scanned(secret, guess, i, correct, secretMap, guessMap)
    requires i < |guess| && guess[i] != secret[i]
    ensures Scanned(secret, guess, i + 1, correct,
                    secretMap[secret[i] := Tally(secretMap, secret[i]) + 1],
                    guessMap[guess[i] := Tally(guessMap, guess[i]) + 1])
  {
    TallyAdd(secretMap, SecretLeftovers(secret, guess, i), secret[i]);
    TallyAdd(guessMap, GuessLeftovers(secret, guess, i), guess[i]);
  }

  /** Counting one more occurrence of x keeps the tallies exact. */
  lemma TallyAdd(m: map<string, int>, ms: multiset<string>, x: string)
    requires TalliesOf(m, ms)
    ensures TalliesOf(m[x := Tally(m, x) + 1], ms + multiset{x})
  {
  }

  /** After visiting the symbols in `visited`, `counted` holds each of them as often as
      the smaller of its counts in a and b, and nothing else. */
  ghost predicate CountedOver(counted: multiset<string>, visited: set<string>, a: multiset<string>, b: multiset<string>) {
    forall c :: counted[c] == if c in visited then Min(a[c], b[c]) else 0
  }

  lemma CountedAdd(counted: multiset<string>, visited: set<string>, a: multiset<string>, b: multiset<string>, x: string, k: int)
    requires CountedOver(counted, visited, a, b) && x !in visited
    requires k == Min(a[x], b[x])
    ensures k >= 0
    ensures CountedOver(counted + Copies(x, k), visited + {x}, a, b)
  {
  }

  lemma CountedSkip(counted: multiset<string>, visited: set<string>, a: multiset<string>, b: multiset<string>, x: string)
    requires CountedOver(counted, visited, a, b) && x !in visited
    requires b[x] == 0
    ensures CountedOver(counted, visited + {x}, a, b)
  {
  }

  lemma CountedComplete(counted: multiset<string>, visited: set<string>, a: multiset<string>, b: multiset<string>)
    requires CountedOver(counted, visited, a, b)
    requires forall c :: c !in visited ==> a[c] == 0
    ensures counted == a * b
  {
    assert forall c :: counted[c] == (a * b)[c];
  }

  /** The first loop of `checkGuess`: counts the positions where guess and secret agree
      and tallies, per symbol, the unmatched positions of each side. */
  method TallyPositions(secretCode: seq<string>, guess: seq<string>)
    returns (correctCount: int, secretMap: map<string, int>, guessMap: map<string, int>)
    requires |guess| <= |secretCode|
    ensures correctCount == ExactMatches(secretCode, guess, |guess|)
    ensures TalliesOf(secretMap, SecretLeftovers(secretCode, guess, |guess|))
    ensures TalliesOf(guessMap, GuessLeftovers(secretCode, guess, |guess|))
  {
    correctCount := 0;
    secretMap := map[];
    guessMap := map[];
    var i := 0;
    while i < |guess|
      invariant i <= |guess|
      invariant Scanned(secretCode, guess, i, correctCount, secretMap, guessMap)
    {
      if guess[i] == secretCode[i] {
        ScanMatch(secretCode, guess, i, correctCount, secretMap, guessMap);
        correctCount := correctCount + 1;
      } else {
        ScanMismatch(secretCode, guess, i, correctCount, secretMap, guessMap);
        secretMap := secretMap[secretCode[i] := Tally(secretMap, secretCode[i]) + 1];
        guessMap := guessMap[guess[i] := Tally(guessMap, guess[i]) + 1];
      }
      i := i + 1;
    }
  }

  /** The second loop of `checkGuess`: for every symbol of the guess tally that the
      secret tally also holds, adds the smaller of the two counts. The sum is the size
      of the intersection of the tallied multisets. */
  method SumMinimums(guessMap: map<string, int>, secretMap: map<string, int>,
                     ghost unmatchedGuess: multiset<string>, ghost unmatchedSecret: multiset<string>)
    returns (misplacedCount: int)
    requires TalliesOf(guessMap, unmatchedGuess) && TalliesOf(secretMap, unmatchedSecret)
    ensures misplacedCount == |unmatchedGuess * unmatchedSecret|
  {
    misplacedCount := 0;
    var remaining := guessMap.Keys;
    ghost var counted: multiset<string> := multiset{};
    while remaining != {}
      invariant remaining <= guessMap.Keys
      invariant CountedOver(counted, guessMap.Keys - remaining, unmatchedGuess, unmatchedSecret)
      invariant misplacedCount == |counted|
      decreases remaining
    {
      var color :| color in remaining;
      ghost var visited := guessMap.Keys - remaining;
      if color in secretMap {
        var k := Min(guessMap[color], secretMap[color]);
        CountedAdd(counted, visited, unmatchedGuess, unmatchedSecret, color, k);
        misplacedCount := misplacedCount + k;
        counted := counted + Copies(color, k);
      } else {
        CountedSkip(counted, visited, unmatchedGuess, unmatchedSecret, color);
      }
      assert guessMap.Keys - (remaining - {color}) == visited + {color};
      remaining := remaining - {color};
    }
    CountedComplete(counted, guessMap.Keys, unmatchedGuess, unmatchedSecret);
  }

  /** `Checker(secretCode).checkGuess(guess)`: one pass counts the exact matches and
      tallies the unmatched symbols of each side in two maps, a second pass over the
      guess tally adds up the per-symbol minimum. The secret is indexed at every guess
      position, so the guess may not be longer than the secret. */
  method CheckGuess(secretCode: seq<string>, guess: seq<string>) returns (feedback: Feedback)
    requires |guess| <= |secretCode|
    ensures feedback == Score(secretCode, guess)
  {
    var correctCount, secretMap, guessMap := TallyPositions(secretCode, guess);
    var misplacedCount := SumMinimums(guessMap, secretMap,
                                      GuessLeftovers(secretCode, guess, |guess|),
                                      SecretLeftovers(secretCode, guess, |guess|));
    feedback := Feedback(correctCount, misplacedCount);
  }

  /** Each unmatched position leaves one symbol on each side. */
  lemma {:induction false} LeftoversSize(secret: seq<string>, guess: seq<string>, n: nat)
    requires n <= |guess| <= |secret|
    ensures |GuessLeftovers(secret, guess, n)| == n - ExactMatches(secret, guess, n)
    ensures |SecretLeftovers(secret, guess, n)| == n - ExactMatches(secret, guess, n)
    ensures |Matched(secret, guess, n)| == ExactMatches(secret, guess, n)
    ensures ExactMatches(secret, guess, n) <= n
  {
    if n > 0 {
      LeftoversSize(secret, guess, n - 1);
    }
  }

  /** The part two multisets share is no larger than either. */
  lemma IntersectionBound(a: multiset<string>, b: multiset<string>)
    ensures |a * b| <= |a| && |a * b| <= |b|
  {
    assert a == (a * b) + (a - b);
    assert b == (a * b) + (b - a);
  }

  /** Every guess position adds to at most one of the two counts. */
  lemma ScoreBound(secret: seq<string>, guess: seq<string>)
    requires |guess| <= |secret|
    ensures 0 <= Score(secret, guess).correct
    ensures 0 <= Score(secret, guess).misplaced
    ensures Score(secret, guess).correct + Score(secret, guess).misplaced <= |guess|
  {
    LeftoversSize(secret, guess, |guess|);
    IntersectionBound(GuessLeftovers(secret, guess, |guess|), SecretLeftovers(secret, guess, |guess|));
  }

  /** The exact count is the number of positions where guess and secret agree. */
  lemma {:induction false} ExactMatchesCountsPositions(secret: seq<string>, guess: seq<string>, n: nat)
    requires n <= |guess| <= |secret|
    ensures ExactMatches(secret, guess, n) == |set i | 0 <= i < n && guess[i] == secret[i]|
  {
    if n > 0 {
      ExactMatchesCountsPositions(secret, guess, n - 1);
      var before := set i | 0 <= i < n - 1 && guess[i] == secret[i];
      var now := set i | 0 <= i < n && guess[i] == secret[i];
      if guess[n - 1] == secret[n - 1] {
        assert now == before + {n - 1};
      } else {
        assert now == before;
      }
    }
  }

  /** All positions below n match exactly when guess and secret agree at each of them. */
  lemma {:induction false} AllExactIffAgree(secret: seq<string>, guess: seq<string>, n: nat)
    requires n <= |guess| <= |secret|
    ensures ExactMatches(secret, guess, n) == n <==> forall i :: 0 <= i < n ==> guess[i] == secret[i]
  {
    if n > 0 {
      AllExactIffAgree(secret, guess, n - 1);
      LeftoversSize(secret, guess, n - 1);
    }
  }

  /** A guess of full length is scored fully correct exactly when it is the secret. */
  lemma SolvedIffSecret(secret: seq<string>, guess: seq<string>)
    requires |guess| == |secret|
    ensures Score(secret, guess).correct == |secret| <==> guess == secret
  {
    AllExactIffAgree(secret, guess, |guess|);
  }

  /** Guessing the secret itself: everything correct, nothing misplaced. */
  lemma ScoreOfSecret(secret: seq<string>)
    ensures Score(secret, secret) == Feedback(|secret|, 0)
  {
    SolvedIffSecret(secret, secret);
    LeftoversSize(secret, secret, |secret|);
  }

  /** The multiset of a prefix grows by the next element. */
  lemma PrefixStep(s: seq<string>, n: nat)
    requires 0 < n <= |s|
    ensures multiset(s[..n]) == multiset(s[..n - 1]) + multiset{s[n - 1]}
  {
    assert s[..n] == s[..n - 1] + [s[n - 1]];
  }

  /** With no exact match below n, the unmatched guess symbols are the whole prefix. */
  lemma {:induction false} NoExactGuessLeftovers(secret: seq<string>, guess: seq<string>, n: nat)
    requires n <= |guess| <= |secret|
    requires forall i :: 0 <= i < n ==> guess[i] != secret[i]
    ensures GuessLeftovers(secret, guess, n) == multiset(guess[..n])
  {
    if n > 0 {
      NoExactGuessLeftovers(secret, guess, n - 1);
      PrefixStep(guess, n);
      assert guess[n - 1] != secret[n - 1];
      assert GuessLeftovers(secret, guess, n) == GuessLeftovers(secret, guess, n - 1) + multiset{guess[n - 1]};
    }
  }

  /** With no exact match below n, the unmatched secret symbols are the whole prefix. */
  lemma {:induction false} NoExactSecretLeftovers(secret: seq<string>, guess: seq<string>, n: nat)
    requires n <= |guess| <= |secret|
    requires forall i :: 0 <= i < n ==> guess[i] != secret[i]
    ensures SecretLeftovers(secret, guess, n) == multiset(secret[..n])
  {
    if n > 0 {
      NoExactSecretLeftovers(secret, guess, n - 1);
      PrefixStep(secret, n);
      assert guess[n - 1] != secret[n - 1];
      assert SecretLeftovers(secret, guess, n) == SecretLeftovers(secret, guess, n - 1) + multiset{secret[n - 1]};
    }
  }

  /** A rearrangement of the secret that moves every symbol: nothing correct, everything
      misplaced. */
  lemma ScoreOfDerangement(secret: seq<string>, guess: seq<string>)
    requires |guess| == |secret|
    requires multiset(guess) == multiset(secret)
    requires forall i :: 0 <= i < |guess| ==> guess[i] != secret[i]
    ensures Score(secret, guess) == Feedback(0, |guess|)
  {
    NoExactGuessLeftovers(secret, guess, |guess|);
    NoExactSecretLeftovers(secret, guess, |guess|);
    LeftoversSize(secret, guess, |guess|);
    assert guess[..|guess|] == guess && secret[..|secret|] == secret;
    var m := multiset(guess);
    assert m * m == m;
  }

  /** Every guess position lands in exactly one of the matched and unmatched multisets. */
  lemma {:induction false} GuessSplit(secret: seq<string>, guess: seq<string>, n: nat)
    requires n <= |guess| <= |secret|
    ensures multiset(guess[..n]) == Matched(secret, guess, n) + GuessLeftovers(secret, guess, n)
  {
    if n > 0 {
      GuessSplit(secret, guess, n - 1);
      PrefixStep(guess, n);
      var m, g, x := Matched(secret, guess, n - 1), GuessLeftovers(secret, guess, n - 1), guess[n - 1];
      if x == secret[n - 1] {
        assert Matched(secret, guess, n) == m + multiset{x};
        assert GuessLeftovers(secret, guess, n) == g;
      } else {
        assert Matched(secret, guess, n) == m;
        assert GuessLeftovers(secret, guess, n) == g + multiset{x};
      }
    }
  }

  /** Every secret position (below |guess|) lands in exactly one of the matched and
      unmatched multisets. */
  lemma {:induction false} SecretSplit(secret: seq<string>, guess: seq<string>, n: nat)
    requires n <= |guess| <= |secret|
    ensures multiset(secret[..n]) == Matched(secret, guess, n) + SecretLeftovers(secret, guess, n)
  {
    if n > 0 {
      SecretSplit(secret, guess, n - 1);
      PrefixStep(secret, n);
      var m, g, x := Matched(secret, guess, n - 1), SecretLeftovers(secret, guess, n - 1), secret[n - 1];
      if guess[n - 1] == x {
        assert Matched(secret, guess, n) == m + multiset{x};
        assert SecretLeftovers(secret, guess, n) == g;
      } else {
        assert Matched(secret, guess, n) == m;
        assert SecretLeftovers(secret, guess, n) == g + multiset{x};
      }
    }
  }

  /** The two counts together are the classic Mastermind total: for each symbol, the
      smaller of its counts in the guess and in the secret. */
  lemma TotalMatches(secret: seq<string>, guess: seq<string>)
    requires |guess| == |secret|
    ensures Score(secret, guess).correct + Score(secret, guess).misplaced
         == |multiset(guess) * multiset(secret)|
  {
    var n := |guess|;
    GuessSplit(secret, guess, n);
    SecretSplit(secret, guess, n);
    LeftoversSize(secret, guess, n);
    assert guess[..n] == guess && secret[..n] == secret;
    var m := Matched(secret, guess, n);
    var a := GuessLeftovers(secret, guess, n);
    var b := SecretLeftovers(secret, guess, n);
    assert (m + a) * (m + b) == m + a * b;
  }

  lemma FourGuessLeftovers()
    ensures GuessLeftovers(["A", "B", "C", "D"], ["B", "C", "A", "D"], 4) == multiset{"B", "C", "A"}
  {
    var secret, guess := ["A", "B", "C", "D"], ["B", "C", "A", "D"];
    assert guess[0] != secret[0] && guess[1] != secret[1] && guess[2] != secret[2] && guess[3] == secret[3];
  }

  lemma FourSecretLeftovers()
    ensures SecretLeftovers(["A", "B", "C", "D"], ["B", "C", "A", "D"], 4) == multiset{"A", "B", "C"}
  {
    var secret, guess := ["A", "B", "C", "D"], ["B", "C", "A", "D"];
    assert guess[0] != secret[0] && guess[1] != secret[1] && guess[2] != secret[2] && guess[3] == secret[3];
  }

  /** ABCD guessed as BCAD: D is in place, the other three are misplaced. */
  lemma MixedExampleFour()
    ensures Score(["A", "B", "C", "D"], ["B", "C", "A", "D"]) == Feedback(1, 3)
  {
    FourGuessLeftovers();
    FourSecretLeftovers();
    assert multiset{"B", "C", "A"} * multiset{"A", "B", "C"} == multiset{"A", "B", "C"};
  }

  lemma FiveGuessLeftovers()
    ensures GuessLeftovers(["B", "B", "C", "D", "D"], ["A", "B", "B", "C", "D"], 5) == multiset{"A", "B", "C"}
  {
    var secret, guess := ["B", "B", "C", "D", "D"], ["A", "B", "B", "C", "D"];
    assert guess[0] != secret[0] && guess[1] == secret[1] && guess[2] != secret[2];
    assert guess[3] != secret[3] && guess[4] == secret[4];
    assert GuessLeftovers(secret, guess, 3) == multiset{"A", "B"};
  }

  lemma FiveSecretLeftovers()
    ensures SecretLeftovers(["B", "B", "C", "D", "D"], ["A", "B", "B", "C", "D"], 5) == multiset{"B", "C", "D"}
  {
    var secret, guess := ["B", "B", "C", "D", "D"], ["A", "B", "B", "C", "D"];
    assert guess[0] != secret[0] && guess[1] == secret[1] && guess[2] != secret[2];
    assert guess[3] != secret[3] && guess[4] == secret[4];
    assert SecretLeftovers(secret, guess, 3) == multiset{"B", "C"};
  }

  lemma FiveShared()
    ensures |multiset{"A", "B", "C"} * multiset{"B", "C", "D"}| == 2
  {
    assert multiset{"A", "B", "C"} * multiset{"B", "C", "D"} == multiset{"B", "C"};
  }

  /** BBCDD guessed as ABBCD: two in place, two misplaced. */
  lemma MixedExampleFive()
    ensures Score(["B", "B", "C", "D", "D"], ["A", "B", "B", "C", "D"]) == Feedback(2, 2)
  {
    FiveGuessLeftovers();
    FiveSecretLeftovers();
    FiveShared();
  }

  lemma SixGuessLeftovers()
    ensures GuessLeftovers(["A", "B", "B", "D", "A", "B"], ["B", "A", "D", "B", "A", "C"], 6)
            == multiset{"B", "A", "D", "B", "C"}
  {
    var secret, guess := ["A", "B", "B", "D", "A", "B"], ["B", "A", "D", "B", "A", "C"];
    assert guess[0] != secret[0] && guess[1] != secret[1] && guess[2] != secret[2];
    assert guess[3] != secret[3] && guess[4] == secret[4] && guess[5] != secret[5];
    assert GuessLeftovers(secret, guess, 3) == multiset{"B", "A", "D"};
  }

  lemma SixSecretLeftovers()
    ensures SecretLeftovers(["A", "B", "B", "D", "A", "B"], ["B", "A", "D", "B", "A", "C"], 6)
            == multiset{"A", "B", "B", "D", "B"}
  {
    var secret, guess := ["A", "B", "B", "D", "A", "B"], ["B", "A", "D", "B", "A", "C"];
    assert guess[0] != secret[0] && guess[1] != secret[1] && guess[2] != secret[2];
    assert guess[3] != secret[3] && guess[4] == secret[4] && guess[5] != secret[5];
    assert SecretLeftovers(secret, guess, 3) == multiset{"A", "B", "B"};
  }

  lemma SixShared()
    ensures |multiset{"B", "A", "D", "B", "C"} * multiset{"A", "B", "B", "D", "B"}| == 4
  {
    assert multiset{"B", "A", "D", "B", "C"} * multiset{"A", "B", "B", "D", "B"} == multiset{"A", "B", "B", "D"};
  }

  /** ABBDAB guessed as BADBAC: one in place, four misplaced. */
  lemma MixedExampleSix()
    ensures Score(["A", "B", "B", "D", "A", "B"], ["B", "A", "D", "B", "A", "C"]) == Feedback(1, 4)
  {
    SixGuessLeftovers();
    SixSecretLeftovers();
    SixShared();
  }

  /** The all-misplaced examples: each guess moves every symbol of its secret. */
  lemma AllMisplacedFour()
    ensures Score(["A", "B", "C", "D"], ["B", "C", "D", "A"]) == Feedback(0, 4)
  {
    ScoreOfDerangement(["A", "B", "C", "D"], ["B", "C", "D", "A"]);
  }

  lemma AllMisplacedFive()
    ensures Score(["A", "B", "C", "D", "A"], ["B", "C", "A", "A", "D"]) == Feedback(0, 5)
  {
    FiveSameSymbols();
    ScoreOfDerangement(["A", "B", "C", "D", "A"], ["B", "C", "A", "A", "D"]);
  }

  lemma AllMisplacedSix()
    ensures Score(["A", "B", "C", "D", "A", "B"], ["B", "C", "B", "A", "D", "A"]) == Feedback(0, 6)
  {
    SixSameSymbols();
    SixAllMoved();
    ScoreOfDerangement(["A", "B", "C", "D", "A", "B"], ["B", "C", "B", "A", "D", "A"]);
  }

  lemma SixSameSymbols()
    ensures multiset(["B", "C", "B", "A", "D", "A"]) == multiset(["A", "B", "C", "D", "A", "B"])
  {
  }

  lemma SixAllMoved()
    ensures var secret, guess := ["A", "B", "C", "D", "A", "B"], ["B", "C", "B", "A", "D", "A"];
            forall i :: 0 <= i < |guess| ==> guess[i] != secret[i]
  {
  }

  lemma FiveSameSymbols()
    ensures multiset(["B", "C", "A", "A", "D"]) == multiset(["A", "B", "C", "D", "A"])
  {
  }
}
