# Five-card poker: a verified model of the game core

This project models the core of a single-player five-card poker game in Dafny and
proves properties of that model. It covers:

- **Cards** (`models.dfy`, module `Models`). There are four suits and thirteen
  ranks, both in declaration order. A card is a suit and a rank compared by value,
  and it prints as `"<rank> of <suit>"`. The module also holds a dealt hand and the
  game state returned to a client, with its defaults.
- **Python built-ins the evaluator relies on** (`builtins.dfy`, module `Builtins`):
  - `sorted(..., reverse=True)` on rank values, as an insertion sort.
  - `set(...)` as the set of elements.
  - `Counter(...).most_common()`. Counter keeps its keys in first-seen order, and
    `most_common` is a stable sort by count, largest first.
  - Python's slice `s[start:]`, including negative starts.
- **The hand evaluator** (`evaluator.dfy`, module `Evaluator`). The rank values run
  from 2 to 14. `evaluate_hand` is modelled branch by branch as `EvaluateHand`. That
  function is proved equal, on every five-card hand, to an independent reference
  classification (`Reference`). The reference reads the category off the multiset of
  rank values. It scans from the ace down for the highest value occurring four, three
  or two times and for the highest value present. It scans up from a six-high run to
  an ace-high run for a straight, after checking for the wheel. From this agreement
  follow the score bands, the wheel's scores and order independence.
- **The game logic** (`logic.dfy`, module `Logic`):
  - A fresh 52-card deck in suit-major order.
  - `random.shuffle` as CPython's Fisher–Yates loop. The random draws are a
    parameter `picks`, where `picks[i]` is the index drawn in the round for position
    `i`, so `0 <= picks[i] <= i`.
  - `deal(n)`: it rebuilds and reshuffles the deck when fewer than `n` cards remain.
    It then pops `n` cards from the end, the last card first, and scores them.
  - The class `GameLogic` keeps the deck as a field that its methods update.
- **The chat log** (`chat.dfy`, module `Chat`). Messages are appended in order, and
  `get_messages(limit)` returns the slice `messages[-limit:]`. A message's `id` and
  `timestamp` defaults are evaluated only once, when the message class is defined, so
  every message, in every chat manager of the process, carries the same two values.
  The model makes those two values constants of the manager, given to its
  constructor.

## Model

| member | source | states |
|---|---|---|
| Models.AllSuits | src/five_card_poker/models.py:6-10 | There are four suits, each exactly once, in declaration order, with the texts "Hearts", "Diamonds", "Clubs", "Spades". |
| Models.AllRanks | src/five_card_poker/models.py:13-26 | There are thirteen ranks, each exactly once, in declaration order, with the texts "2" to "10", "J", "Q", "K", "A". |
| Models.CardText | src/five_card_poker/models.py:33-34 | `str(card)` is the rank's text, then " of ", then the suit's text, and nothing else. |
| Models.CardTextInjective | src/five_card_poker/models.py:29-34 | A card prints as "<rank> of <suit>". Two cards print alike if and only if they are equal, and card equality is by suit and rank. |
| Models.DefaultGameState | src/five_card_poker/models.py:43-49 | A game state left at its defaults has balance 100, current bet 0, phase "betting" and an empty message. |
| Evaluator.RankValue | src/five_card_poker/logic.py:25-33 | A rank's value is its position in declaration order plus 2, so a two is 2 and an ace is 14. |
| Evaluator.RankValueIncreasing | src/five_card_poker/logic.py:25-33 | Rank values increase strictly along the rank order and stay between 2 and 14. |
| Evaluator.RankValueInjective | src/five_card_poker/logic.py:25-33 | Two ranks have the same value if and only if they are the same rank. |
| Evaluator.EvaluateHand | src/five_card_poker/logic.py:35-93 | Any number of cards other than five scores (0, "Invalid Hand"). Five cards always get one of the ten category names, never "Invalid Hand". |
| Evaluator.Decide | src/five_card_poker/logic.py:56-93 | The chain of category tests, strongest first, always names one of the ten categories and never "Invalid Hand". DecideAgrees relates each branch to the reference. |
| Evaluator.IsWheel | src/five_card_poker/logic.py:48-52 | The wheel test holds exactly when the set of values is {14, 5, 4, 3, 2}, so the separate size test adds nothing. WheelAgrees proves that on sorted values this is the wheel's multiset. |
| Evaluator.IsStraight | src/five_card_poker/logic.py:47-53 | A straight is five distinct values spanning four, or the wheel. StraightAgrees proves this holds exactly when the reference finds a run. |
| Evaluator.PlayedValues | src/five_card_poker/logic.py:52-54 | The played values have the sorted values' length; only the wheel is rewritten, to 5-4-3-2-1. StraightAgrees proves its first value is the straight's high card, or else the highest value. |
| Evaluator.WheelAgrees | src/five_card_poker/logic.py:52 | On five sorted values, the wheel test holds if and only if the multiset is A, 5, 4, 3, 2. |
| Evaluator.RankValues | src/five_card_poker/logic.py:39 | `[self._rank_value(c.rank) for c in cards]`: one value per card, each from 2 to 14. |
| Evaluator.Suits | src/five_card_poker/logic.py:40 | `[c.suit for c in cards]`: one suit per card. |
| Evaluator.EvaluateMatchesReference | src/five_card_poker/logic.py:35-93 | For every five-card hand, the evaluator's score and name equal the band plus tiebreak and the name of the reference classification. |
| Evaluator.SortedAgrees | src/five_card_poker/logic.py:39-93 | On sorted rank values, the evaluator's chain of category tests gives the reference's score and name. |
| Evaluator.DecideAgrees | src/five_card_poker/logic.py:56-93 | The chain of tests, strongest first, picks the reference's category and tiebreak whenever each test's input agrees with the matching reference scan. |
| Evaluator.StraightAgrees | src/five_card_poker/logic.py:46-54 | Sorted values form a straight (five distinct values spanning four, or the wheel) if and only if the reference finds a run. The straight's played high card is the run's top, and without a straight it is the highest value. |
| Evaluator.RoyalAgrees | src/five_card_poker/logic.py:57-58 | A straight whose played values are ten to ace is exactly the multiset 10, J, Q, K, A. |
| Evaluator.FlushAgrees | src/five_card_poker/logic.py:44 | One distinct suit among the cards means all cards share a suit, and the converse holds too. |
| Evaluator.QuadAgrees | src/five_card_poker/logic.py:65-66 | The top count is 4 if and only if some value occurs four times, and that value is the most common one. |
| Evaluator.TripAgrees | src/five_card_poker/logic.py:81-82 | The top count is 3 if and only if some value occurs three times, and that value is the most common one. |
| Evaluator.FullHouseAgrees | src/five_card_poker/logic.py:69-70 | With three of a kind, the second count is 2 if and only if some value occurs exactly twice. |
| Evaluator.PairAgrees | src/five_card_poker/logic.py:89-90 | Without three or four of a kind, the top count is 2 if and only if some value occurs exactly twice. |
| Evaluator.TwoPairAgrees | src/five_card_poker/logic.py:85-86 | With a pair on top, the second count is 2 if and only if there is a second, lower pair. The higher of the first two counted values is the highest pair. |
| Evaluator.MostCommonOfFive | src/five_card_poker/logic.py:65-70 | Five values always have a most common entry. When its count is below five, there is a second entry, so `sorted_counts[1]` exists. |
| Evaluator.TiebreakRange | src/five_card_poker/logic.py:56-93 | A royal flush has tiebreak 0. Every other category's tiebreak is a rank value from 2 to 14. |
| Evaluator.ScoreBand | src/five_card_poker/logic.py:56-93 | A five-card score divided by 100 is its category's strength, from 0 for high card to 9 for royal flush. The remainder is the tiebreak, at most 14, and the name is the category's. |
| Evaluator.HigherCategoryWins | src/five_card_poker/logic.py:56-93 | A hand of a stronger category always scores more than a hand of a weaker one, so the bands never overlap. |
| Evaluator.LabelInjective | src/five_card_poker/logic.py:56-93 | Distinct categories have distinct names. |
| Evaluator.CategoryNames | src/five_card_poker/logic.py:56-93 | There are exactly ten category names, and every category's name is among them. |
| Evaluator.WheelScore | src/five_card_poker/logic.py:47-78 | A-5-4-3-2 plays its ace as a one. It scores (405, "Straight"), or (805, "Straight Flush") when all five cards share a suit. |
| Evaluator.EvaluateOrderFree | src/five_card_poker/logic.py:35-93 | Rearranging the cards changes neither the score nor the name. |
| Builtins.SortDesc | src/five_card_poker/logic.py:39 | `sorted(values, reverse=True)`: the result is non-increasing, with the same length and the same multiset of values. |
| Builtins.SortDescOrderFree | src/five_card_poker/logic.py:39 | Sorting depends only on the multiset of the values. |
| Builtins.Elems | src/five_card_poker/logic.py:44 | `set(xs)` holds exactly the elements of `xs`. |
| Builtins.SortByCount | src/five_card_poker/logic.py:41-42 | Sorting (value, count) pairs by count puts larger counts first and keeps the same pairs. |
| Builtins.Distinct | src/five_card_poker/logic.py:41 | A Counter's keys: the values of the list, each exactly once, in order of first occurrence. |
| Builtins.Tally | src/five_card_poker/logic.py:41 | `Counter(values)`: each distinct value, in first-seen order, with its number of occurrences. Its properties are stated by MostCommonFacts. |
| Builtins.MostCommon | src/five_card_poker/logic.py:41-42 | `Counter(values).most_common()`: the Counter's (value, count) items in first-seen key order, stably sorted by count. Its properties are stated by MostCommonFacts. |
| Builtins.MostCommonFacts | src/five_card_poker/logic.py:41-42 | `Counter(values).most_common()` lists each distinct value once, with its number of occurrences, largest count first. |
| Logic.CreateDeck | src/five_card_poker/logic.py:10-11 | A fresh deck has 52 cards. |
| Logic.DeckAt | src/five_card_poker/logic.py:10-11 | Position `i` of a fresh deck holds the suit numbered `i / 13` and the rank numbered `i % 13`, so the order is suit-major. |
| Logic.DeckPosition | src/five_card_poker/logic.py:10-11 | The card of suit `s` and rank `k` lies at position 13 times the suit's index plus the rank's index. |
| Logic.DeckHasEveryCard | src/five_card_poker/logic.py:10-11 | Every card is in a fresh deck. |
| Logic.DeckDistinct | src/five_card_poker/logic.py:10-11 | No two positions of a fresh deck hold the same card. |
| Logic.FullDeckCounts | src/five_card_poker/logic.py:10-11 | Each of the 52 cards occurs exactly once in a fresh deck. |
| Logic.FromOneDeckBounds | src/five_card_poker/logic.py:10-23 | Cards drawn from one deck number at most 52 and never repeat. |
| Logic.Shuffled | src/five_card_poker/logic.py:13-14 | CPython's shuffle: for positions from the last down to 1, swap position `i` with the drawn position `picks[i] <= i`. The length never changes, and ShuffledPermutes proves the multiset does not either. |
| Logic.ShuffledPermutes | src/five_card_poker/logic.py:13-14 | The Fisher–Yates shuffle keeps the multiset of cards unchanged, whatever the draws. |
| Logic.GameLogic.constructor | src/five_card_poker/logic.py:6-8 | A new game holds a fresh deck shuffled with the given draws: all 52 cards, each once. |
| Logic.GameLogic.Shuffle | src/five_card_poker/logic.py:13-14 | The deck becomes the Fisher–Yates shuffle of the old deck under the given draws. Swaps run from the last position down to position 1, and the cards stay a permutation of the old ones. |
| Logic.GameLogic.Deal | src/five_card_poker/logic.py:16-23 | With fewer than `n` cards left, the deck is first rebuilt and reshuffled. Then the last `n` cards are popped, last first, and the first cards are left. The hand's score and name are the evaluator's. A successful deal neither loses nor adds a card: the hand plus the remaining deck equals the deck dealt from. With too few cards, the pop fails and the deck is left empty. A rebuild for `n <= 52` leaves `52 - n` cards. |
| Logic.RangeLength | src/five_card_poker/logic.py:21 | `range(n)` runs `n` rounds, and none when `n` is negative, so a negative `n` deals an empty hand. |
| Logic.DealSource | src/five_card_poker/logic.py:17-19 | With fewer than `n` cards left, a rebuilt deck of 52 shuffled cards is dealt from; otherwise the deck is dealt from unchanged. |
| Logic.LastReversed | src/five_card_poker/logic.py:21 | `k` pops from the end give `k` cards, position `j` holding the card `j + 1` from the end, so the last card comes first. |
| Logic.DealSourceCards | src/five_card_poker/logic.py:17-19 | A rebuilt deck holds every card exactly once. Both branches keep "drawn from one deck". |
| Logic.PopsConserve | src/five_card_poker/logic.py:21 | The popped cards plus what is left make up the original deck as a multiset. |
| Logic.DealKeepsOneDeck | src/five_card_poker/logic.py:16-23 | Dealing from cards of one deck never puts a card in both the hand and the remaining deck. |
| Chat.ChatManager.constructor | src/five_card_poker/chat.py:13-14 | A new chat log is empty. |
| Chat.ChatManager.AddMessage | src/five_card_poker/chat.py:16-19 | Adding appends exactly one message, with the player and text given and the shared default id and time stamp, and returns that message. |
| Chat.ChatManager.GetMessages | src/five_card_poker/chat.py:21-22 | With a positive limit (50 by default), the result is the newest min(limit, count) messages in order. A limit of 0 returns every message. |
| Builtins.SliceFrom | src/five_card_poker/chat.py:22 | Python's `s[start:]`, with a negative start counted from the end and clamped: the result is always a suffix of `s`. The chat lemmas give its length for each kind of limit. |
| Chat.LastMessages | src/five_card_poker/chat.py:21-22 | `messages[-limit:]` for a positive limit is the last min(limit, count) messages. |
| Chat.ZeroLimitReturnsAll | src/five_card_poker/chat.py:21-22 | `messages[-0:]` is the whole log. |
| Chat.NegativeLimitDropsFront | src/five_card_poker/chat.py:21-22 | A negative limit `-m` drops the first `m` messages, or returns nothing when there are fewer. |
| Chat.DefaultLimitReturnsAll | src/five_card_poker/chat.py:21-22 | With at most 50 messages, the default limit returns all of them. |
| Chat.NewestLast | src/five_card_poker/chat.py:16-22 | After a message is added, it is the last one returned, for every positive limit. |
| Chat.WindowSlides | src/five_card_poker/chat.py:16-22 | Once the log holds at least `limit` messages, adding one drops the oldest returned message and appends the new one. |

## Left out

- The web application (`main.py`), the table and betting engine, the computer
  opponents (`ai.py`) and the browser script are not part of this model.
- `BetRequest` and `DrawRequest` (`models.py` 52-57) are request bodies with no
  behaviour, so they are not modelled. Field validation and serialisation are left
  out too.
- Randomness: the model takes the shuffle's draws as a parameter. It does not model
  how random they are, only that each lies in the range CPython draws from.
- The values of `uuid4()` and `time.time()` are left out. The source computes them
  once, when the message class is defined, so every message of every chat manager in
  a process shares them. The model passes them to each manager's constructor as
  constants, and does not capture that all managers must receive the same pair.
- The `Hand` and `GameState` field types are not checked at run time, unlike with
  pydantic.
- Logic.GameLogic.Deal: a deal that runs out of cards raises `IndexError` in the
  source. The model returns `None` and leaves the deck empty, as the pops have
  emptied it.
- Logic.GameLogic.Deal: a test in the repository expects `deal(10)` on a fresh game
  to return five cards and leave 47. The code pops `n` cards, so it returns ten and
  leaves 42. The model follows the code.
- Cards and chat messages are mutable objects in the source, and `add_message`
  returns the same object it stores, so changing the returned message changes the
  log. The model uses immutable values, so this aliasing is not captured. Nothing in
  the core mutates a card or a message after creating it.
- Evaluator.EvaluateHand: `evaluate_hand` is a method of the game class that does
  not use the instance. It is modelled as a function of the cards alone, and its
  body's tests are gathered in `Decide`.
