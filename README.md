# Game hub rules, modelled in Dafny

This project models the game rules of the game hub page (`app/page.tsx`): three
small games that share one session and one total score.

- **Tic-tac-toe** (`tictactoe.dfy`, `agentreply.dfy`). The player is X. A remote
  opponent plays O. The winner check scans the eight lines in a fixed order. A
  click makes X's move and checks the result. If the round is not over, a reply
  is requested. The reply is a text body or an object. From text, the first
  `row, col` pair matching `\[?\s*(\d+)\s*,\s*(\d+)\s*\]?` is taken. The move
  lands on square `row * 3 + col`, but only if that square is empty.
- **Memory match** (`memorymatch.dfy`). A deck is a shuffle of the eight faces,
  each face doubled. A click turns up at most two cards. A timer later resolves
  the two picks: a matching pair is kept, a mismatch is turned back face down.
- **Number guessing** (`numberguess.dfy`). The secret is in 1..100 and a round
  has seven attempts. Each valid guess is recorded and earns feedback.
- **Session** (`gamehub.dfy`). Class `GameHub.Session` has one field per state
  variable of the page component: `ttt`, `tttLoading`, `memory`, `number` and
  `totalScore`. Its methods are the handlers. Its invariant ties the total score
  to the points earned: 10 per tic-tac-toe win, 20 per memory game won and
  15 per correct guess. So the score only grows, and only in those steps.

The records the page keeps are datatypes. The page replaces them whole through
its state setters; it never mutates them. The memory updates are pure functions,
because the page passes them to its setter as `prev => next` callbacks. The
winner check is a method with the source's `for` loop. It is proved against the
recursive function `WinnerFrom`, which states "the owner of the first complete
line".

Behaviour the code has and the model keeps:
- A failed or unusable reply leaves `isXNext` false. The click handler does not
  look at `isXNext`, so the player simply moves again.
- The reply asks for a row and a column in 0..2. The code applies any pair
  whose `row * 3 + col` is an empty square, for example `[0, 5]` lands on
  square 5. The model follows the code.
- `played` counts valid guesses, not rounds, and `won` counts correct guesses.

## Model

| member | source | states |
|---|---|---|
| TicTacToe.WinnerFrom | app/page.tsx:147-165 | the result is empty exactly when no line from position `k` on holds three equal marks; otherwise it is the mark of the first such line, and no line before it is complete |
| TicTacToe.CalculateWinner | app/page.tsx:147-165 | the loop over the eight lines with early return gives the winner of the board as `WinnerFrom` defines it |
| TicTacToe.EmptyBoardOpen | app/page.tsx:62 | a fresh board of nine empty squares has no winner and is not full |
| TicTacToe.MoveWinsOnlyForMover | app/page.tsx:173-174 | a move onto an empty square of a board nobody has won can only make the mover the winner, so testing for `'X'` after X's move and for `'O'` after O's move misses no winner |
| TicTacToe.PlayerMoved | app/page.tsx:170-194 | defines X's move: the mark on the square, then a win for X with one more win, else a full board with one more draw, else O to move |
| TicTacToe.PlayerMoveKeepsRound | app/page.tsx:168-196 | X's move on a square the click handler accepts puts X on that square and leaves a consistent record whose winner can only be X |
| TicTacToe.OpponentMoved | app/page.tsx:229-255 | defines O's move: the mark on the square, then a win for O with one more loss, else a full board with one more draw, else X to move |
| TicTacToe.OpponentMoveKeepsRound | app/page.tsx:228-256 | O's move on an empty square while a reply is awaited leaves a consistent record whose winner can only be O |
| TicTacToe.OpponentSquare | app/page.tsx:224-228 | the opponent's move is used exactly when it is present and `row * 3 + col` is an empty square of the board, and the square used is then `row * 3 + col` |
| AgentReply.SkipSpaces | app/page.tsx:215 | `\s*` consumes the longest run of white space at a position |
| AgentReply.SkipDigits | app/page.tsx:215 | `\d+` consumes the longest run of digits at a position |
| AgentReply.NatDigitsRoundTrip | app/page.tsx:217 | `parseInt` of the decimal digits of a number gives the number back |
| AgentReply.MatchAt | app/page.tsx:215 | defines the pattern anchored at one position: optional `[`, white space, row digits, white space, comma, white space, column digits |
| AgentReply.MatchPair | app/page.tsx:215-217 | defines the pattern from the row digits on, with `parseInt` of the row digits |
| AgentReply.MatchColumn | app/page.tsx:215-217 | defines the column digits of the pattern, with `parseInt` of them |
| AgentReply.ExtractMove | app/page.tsx:215-217 | defines the move of a text reply as the leftmost match of the pattern |
| AgentReply.ReplyMove | app/page.tsx:211-225 | defines the move a reply carries: the first pair in a text body, the first two entries of an object's `move` array, or none |
| AgentReply.FirstMatch | app/page.tsx:215 | `match` returns the leftmost position where the pattern matches, or nothing when it matches nowhere |
| AgentReply.ReadsBack | app/page.tsx:215-217 | a number written in decimal inside a text and not followed by a digit is one whole `\d+` run, and `parseInt` of that run is the number |
| AgentReply.MatchesSpelledMove | app/page.tsx:215-217 | the pattern, anchored at a `[`, the digits of the row, a comma, white space, the digits of the column and a `]`, reads back that row and column |
| AgentReply.MatchesWrittenMove | app/page.tsx:215-217 | the pattern, anchored at a written `[row,col]` or `[row, col]` (any white space after the comma), reads back that row and column |
| AgentReply.ExtractsWrittenMove | app/page.tsx:204-217 | round trip: text with no digits before a written `[row,col]` or `[row, col]` yields exactly that move, whatever follows |
| AgentReply.NoDigitsNoMove | app/page.tsx:215-216 | text without a digit yields no move |
| AgentReply.TextReplyMove | app/page.tsx:211-224 | a text reply holding digit-free text and then `[row,col]` or `[row, col]` yields that move; a text reply without digits yields none |
| AgentReply.RequestedFormatMove | app/page.tsx:204-217 | a text reply written exactly as the request asks, `{"move": [row, col]}`, yields that move |
| MemoryMatch.Doubled | app/page.tsx:98-99 | defines the doubled face list: each face immediately followed by a copy of itself |
| MemoryMatch.Deal | app/page.tsx:345-353 | defines the deck dealt from a shuffle: card `i` has id `i` and face `i` of the shuffle, face down and unmatched |
| MemoryMatch.DoubledMultiset | app/page.tsx:98-99 | doubling the face list doubles the count of each face |
| MemoryMatch.DoubledFaces | app/page.tsx:53 | the doubled faces are sixteen cards, with each of the eight faces exactly twice |
| MemoryMatch.DealHoldsEachFaceTwice | app/page.tsx:345-353 | any deck dealt from a shuffle has sixteen cards, keeps the shuffle's order, and holds each face exactly twice and no other face |
| MemoryMatch.MatchedPairsBound | app/page.tsx:306-307 | in a valid game the found pairs never exceed eight |
| MemoryMatch.FindCard | app/page.tsx:279 | a card found by id is in the deck and has that id; when none is found, no card has it |
| MemoryMatch.FindCardFirst | app/page.tsx:279 | the card found is the first with that id: no card before its position has the id |
| MemoryMatch.FindCardById | app/page.tsx:279 | with ids equal to positions, the card with id `id` is the one at position `id`, and none is found past the deck |
| MemoryMatch.Click | app/page.tsx:278-291 | a click on a missing, face-up or matched card, or with two picks made, changes nothing; otherwise only that card turns face up and its id is appended; the invariant holds after, so there are never more than two picks |
| MemoryMatch.MarkMatched | app/page.tsx:301-305 | defines the deck with the two picked cards marked matched and every other card as it was |
| MemoryMatch.ResolveMatchAsWritten | app/page.tsx:313-320 | defines the match callback as the code writes it, with the record built from the card array |
| MemoryMatch.ResolveMismatch | app/page.tsx:329-339 | defines the mismatch callback: every card's face-up flag becomes its matched flag, the picks are cleared and one move is counted |
| MemoryMatch.ResolveMatchAsWrittenLosesStartTime | app/page.tsx:313-320 | the match callback as written loses a recorded start time |
| MemoryMatch.ResolveMatch | app/page.tsx:299-321 | the corrected match callback keeps the start time |
| MemoryMatch.MarkMatchedCount | app/page.tsx:301-306 | marking the two picked cards matched adds exactly two matched cards |
| MemoryMatch.MatchStep | app/page.tsx:299-321 | resolving a match keeps the invariant, matches exactly the two picks and leaves the face-up flags alone |
| MemoryMatch.MismatchStep | app/page.tsx:329-339 | resolving a mismatch keeps the invariant and the faces |
| MemoryMatch.Resolve | app/page.tsx:293-340 | for equal faces, both picks become matched, one more pair is counted, and the game is won exactly when that makes eight; for different faces, every card's face-up flag becomes its matched flag and the pair count stays; either way the picks are cleared, one move is counted and the invariant holds |
| MemoryMatch.NewGame | app/page.tsx:344-362 | a new deal from a shuffle keeps its order, all cards face down and unmatched, with no picks, pairs or moves, the start time set, and the invariant holding |
| MemoryMatch.WonGameIgnoresClicks | app/page.tsx:730 | once all pairs are found every click is ignored, so the `gameWon` condition that disables the buttons adds nothing to the handler's own guard |
| NumberGuess.FeedbackFor | app/page.tsx:380-391 | defines the feedback text of a guess against the secret |
| NumberGuess.FeedbackNamesRelation | app/page.tsx:380-391 | the feedback is the "correct" text exactly when the guess equals the secret, "too low" exactly when below it and "too high" exactly when above it |
| NumberGuess.Guess | app/page.tsx:365-405 | a guess that is not a number or is outside 1..100 changes nothing; a valid guess is appended, costs one attempt and counts as played; it wins and counts as won exactly when it equals the secret, and the feedback is "too low" exactly when it is below the secret and "too high" exactly when above; the round invariant holds after |
| NumberGuess.NewRound | app/page.tsx:439-451 | a new round has the given secret, no guesses, seven attempts, no feedback, is open, and keeps played and won |
| NumberGuess.Play | app/page.tsx:365-405 | any sequence of guesses keeps the round invariant |
| NumberGuess.PlayRecordsValidEntries | app/page.tsx:374-399 | over any sequence of guesses, a round never holds more than seven guesses, guesses are only appended, and `played` grows by exactly the number recorded |
| GameHub.Session.constructor | app/page.tsx:57-93 | the session starts with score zero, an empty board, no deck and a fresh number round with the drawn secret, and the invariant holds |
| GameHub.Session.TttClick | app/page.tsx:167-197 | a click while a reply is awaited, on a taken square or after a win changes nothing and requests nothing; otherwise the record becomes `PlayerMoved` of it, ten points are added exactly when X won, and a reply is requested exactly when the round is neither won nor full; the invariant holds after |
| GameHub.Session.PlayerMove | app/page.tsx:170-196 | X's move, checked with `CalculateWinner` and then for a full board, gives exactly `PlayerMoved`; the record stays consistent and the win count grows by one exactly when X won |
| GameHub.Session.TttReply | app/page.tsx:209-263 | a reply's move is taken from it as `ReplyMove` extracts it and applied as `TttOpponentTurn` states; the request is over afterwards |
| GameHub.Session.TttOpponentTurn | app/page.tsx:224-263 | a move to an empty square is applied; an O line gives winner O and one more loss, a full board one more draw, otherwise `isXNext` turns true; any other move leaves the record exactly as it was; the request flag is always cleared and the score is unchanged |
| GameHub.Session.ApplyOpponentMove | app/page.tsx:228-256 | O's move, checked with `CalculateWinner` and then for a full board, gives exactly `OpponentMoved`; the record stays consistent and the win count is unchanged |
| GameHub.Session.ResetTtt | app/page.tsx:266-275 | a new round has an empty board, X to move and no winner, and keeps wins, draws and losses |
| GameHub.Session.MemoryCardClick | app/page.tsx:278-293 | the memory record is replaced by the flip step; the second pick of a pair schedules the resolution |
| GameHub.Session.MemoryResolve | app/page.tsx:293-340 | the memory record is replaced by the resolution; twenty points are added exactly when a matching pair completes the eighth pair |
| GameHub.Session.ResetMemory | app/page.tsx:344-362 | the memory record is replaced by a new deal from the shuffle |
| GameHub.Session.SubmitGuess | app/page.tsx:365-405 | the number record is replaced by the guess step; fifteen points are added exactly for a valid guess equal to the secret |
| GameHub.Session.ResetNumber | app/page.tsx:439-451 | the number record is replaced by a new round with the drawn secret |

## Left out

- Rendering and styling (app/page.tsx:453-960). Only the disabled conditions
  are used: the guess form's (lines 834, 839) is the precondition of
  `SubmitGuess`, and the card buttons' `gameWon` condition (line 730) is shown
  redundant by `WonGameIgnoresClicks`.
- Sound effects (`playSound`, lines 116-144) and the sound toggle. They are Web
  Audio calls with floating-point parameters and have no effect on game state.
- The network request to the opponent, its prompt text and the async control
  flow. The reply is an input value (`AgentReply.Reply`). A failed request,
  `success: false` and an empty body are all `NoReply`.
- The number hint (`getNumberHint`, lines 407-437) and the `hintMessage`,
  `hintLoading` and `numberInput` fields. The hint is a network call whose
  answer is shown cut to 200 characters.
- Randomness. The shuffle is a parameter constrained to be a permutation of the
  doubled faces. The secret is a parameter constrained to 1..100.
- Clock and timers. `Date.now()` is a parameter `now`. The 600 ms and 1000 ms
  timeouts are the explicit step `MemoryResolve`, with no timing.
- The initial-deal effect (lines 96-113). The home screen's memory card calls
  `resetMemoryGame` on entry (lines 518-521), so the effect finds a dealt deck.
  Its deal is the same `Deal`.
- Screen navigation (`currentGame`). The home cards call the resets, which are
  modelled. "Back Home" clearing `tttLoading` while a request is in flight
  (line 664) is a concurrency effect and is not modelled.
- Stale closures and batching. The opponent's move is applied to the current
  board. The code applies it to the board captured at click time; the two
  differ only if "New Game" is pressed while a reply is in flight. The memory
  resolution decides match or mismatch when it runs. The code decides at the
  second click, which differs only if the deck is reset inside the timeout. In
  that case the code's pending match timer still fires after the reset: it
  marks the old ids matched in the new deck and counts a pair there. The
  model's resolution step needs two picks, so it cannot run on a fresh deck
  and does not show this. The +20 is awarded when the resolution makes eight
  pairs. The code tests the pair count it read at the click, which is the
  same count when nothing intervenes.
- Numeric parsing. A guess entry is an optional integer. `parseInt` on partly
  numeric text and JavaScript number precision above 2^53 are not modelled.
  An object reply's `move` entries are integers. Non-numeric or fractional
  entries (which JavaScript would turn into `NaN` or a fractional index) are
  not modelled.
- Card ids are the card's position as a natural number. The code uses the same
  number written as a string.
- MemoryMatch.Resolve: builds a match on the corrected callback
  `ResolveMatch`, not on `ResolveMatchAsWritten`, so it keeps the start time
  that the code as written drops (the finding below).
- GameHub.Session.MemoryResolve: follows `MemoryMatch.Resolve`, so it also
  keeps the start time on a match where the code as written drops it.
- The numeric index keys that the match callback copies from the card array
  into the memory record have no effect on the game and are not modelled.

## Findings

| source | as written | input that shows it | evidently intended | confidence | as-written member | corrected member |
|---|---|---|---|---|---|---|
| app/page.tsx:313-320 | the match callback builds the new record from `...updated` (the card array) instead of `...prev`, so `startTime` is missing afterwards and the elapsed-time display (line 720) computes from `undefined` | any click that completes a matching pair, after which the timer callback runs | spread the previous record, keeping `startTime` | high, from reading the code; not executed | MemoryMatch.ResolveMatchAsWrittenLosesStartTime | MemoryMatch.ResolveMatch |
