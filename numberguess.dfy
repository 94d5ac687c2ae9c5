/** The number-guessing rules of the game hub: a secret in 1..100, seven
    attempts per round and feedback after each valid guess
    (app/page.tsx:42-51, 365-405, 439-451). */
module NumberGuess {
  import opened Wrappers

  /** The attempts a round starts with. */
  const MaxAttempts: nat := 7

  /** The feedback texts. */
  const CorrectText := "Correct! You won!"
  const TooLowText := "Too low! Try higher."
  const TooHighText := "Too high! Try lower."

  /** The number-guessing record of the session. `played` counts valid
      guesses and `won` correct ones; both outlive a round. */
  datatype NumberGuessState = NumberGuessState(
    secretNumber: int,
    guesses: seq<int>,
    attemptsRemaining: int,
    gameWon: bool,
    feedback: string,
    played: nat,
    won: nat)

  /** A number the game accepts as a guess or picks as the secret. */
  predicate InRange(n: int) {
    1 <= n <= 100
  }

  /** The feedback a guess earns against the secret. */
  function FeedbackFor(guess: int, secret: int): string {
    if guess == secret then CorrectText
    else if guess < secret then TooLowText
    else TooHighText
  }

  /** The three feedback texts are told apart: each one is given exactly
      when the guess stands in its relation to the secret. */
  lemma FeedbackNamesRelation(guess: int, secret: int)
    ensures FeedbackFor(guess, secret) == CorrectText <==> guess == secret
    ensures FeedbackFor(guess, secret) == TooLowText <==> guess < secret
    ensures FeedbackFor(guess, secret) == TooHighText <==> guess > secret
  {
    assert CorrectText[0] != TooLowText[0] && CorrectText[0] != TooHighText[0];
    assert TooLowText[4] != TooHighText[4];
  }

  /** The invariant of a round: the secret is in range; guesses made and
      attempts left add up to seven; every guess is in range; the round is
      won exactly when the latest guess hit the secret, and no earlier guess
      did; the feedback describes the latest guess (empty before the first);
      and no more guesses were correct than were made. */
  predicate Valid(s: NumberGuessState) {
    InRange(s.secretNumber) &&
    0 <= s.attemptsRemaining && |s.guesses| + s.attemptsRemaining == MaxAttempts &&
    (forall k :: 0 <= k < |s.guesses| ==> InRange(s.guesses[k])) &&
    (s.gameWon <==> |s.guesses| > 0 && s.guesses[|s.guesses| - 1] == s.secretNumber) &&
    (forall k :: 0 <= k < |s.guesses| - 1 ==> s.guesses[k] != s.secretNumber) &&
    (s.feedback == if |s.guesses| == 0 then "" else FeedbackFor(s.guesses[|s.guesses| - 1], s.secretNumber)) &&
    s.won <= s.played
  }

  /** The round accepts a guess: it is neither won nor out of attempts (the
      guess form is disabled otherwise). */
  predicate Open(s: NumberGuessState) {
    !s.gameWon && s.attemptsRemaining > 0
  }

  /** A submitted guess. `input` is the parsed entry, `None` when it is not
      a number. A guess that is not a number or lies outside 1..100 changes
      nothing. A valid guess is recorded, costs one attempt and counts as
      played; it wins the round, and counts as won, exactly when it is the
      secret, and otherwise earns "too low" or "too high" feedback. */
  function Guess(s: NumberGuessState, input: Option<int>): (r: NumberGuessState)
    requires Valid(s) && Open(s)
    ensures Valid(r)
    ensures input.None? || !InRange(input.value) ==> r == s
    ensures input.Some? && InRange(input.value) ==>
      var g := input.value;
      r.secretNumber == s.secretNumber && r.guesses == s.guesses + [g] &&
      r.attemptsRemaining == s.attemptsRemaining - 1 &&
      r.played == s.played + 1 &&
      (r.gameWon <==> g == s.secretNumber) &&
      r.won == (if g == s.secretNumber then s.won + 1 else s.won) &&
      (r.feedback == TooLowText <==> g < s.secretNumber) &&
      (r.feedback == TooHighText <==> g > s.secretNumber)
  {
    match input
    case None => s
    case Some(guess) =>
      if !InRange(guess) then s
      else
        var isWon := guess == s.secretNumber;
        s.(guesses := s.guesses + [guess],
           attemptsRemaining := s.attemptsRemaining - 1,
           gameWon := isWon,
           feedback := FeedbackFor(guess, s.secretNumber),
           played := s.played + 1,
           won := if isWon then s.won + 1 else s.won)
  }

  /** A new round with secret `secret`: no guesses, seven attempts, no
      feedback, and the played and won counters kept. */
  function NewRound(s: NumberGuessState, secret: int): (r: NumberGuessState)
    requires InRange(secret)
    ensures s.won <= s.played ==> Valid(r) && Open(r)
    ensures r.secretNumber == secret && r.guesses == [] && r.attemptsRemaining == MaxAttempts
    ensures r.feedback == "" && !r.gameWon && r.played == s.played && r.won == s.won
  {
    NumberGuessState(secret, [], MaxAttempts, false, "", s.played, s.won)
  }

  /** The guesses a sequence of entries makes from state `s`, as long as the
      round stays open. */
  function Play(s: NumberGuessState, inputs: seq<Option<int>>): (r: NumberGuessState)
    requires Valid(s)
    ensures Valid(r)
    decreases |inputs|
  {
    if inputs == [] || !Open(s) then s else Play(Guess(s, inputs[0]), inputs[1..])
  }

  /** However the entries go, a round never holds more than seven guesses,
      guesses are only ever appended, and the played counter grows by exactly
      the number of guesses recorded. */
  lemma {:induction false} PlayRecordsValidEntries(s: NumberGuessState, inputs: seq<Option<int>>)
    requires Valid(s)
    ensures |Play(s, inputs).guesses| <= MaxAttempts
    ensures s.guesses <= Play(s, inputs).guesses
    ensures Play(s, inputs).played - s.played == |Play(s, inputs).guesses| - |s.guesses|
    decreases |inputs|
  {
    if inputs != [] && Open(s) {
      PlayRecordsValidEntries(Guess(s, inputs[0]), inputs[1..]);
    }
  }
}
