# Latin flashcards: navigation state, in Dafny

This project models the state machine behind the flashcard page of the Latin
flashcards site (`script.js`). It covers:

- the deck being studied (`currentDeck`) and the current card (`currentIndex`);
- the "revealed" class of the card element;
- which of the three views (home, flashcards, word list) is shown;
- what the card element displays, including the progress line;
- the rows of the word-list table.

Each button or click handler becomes a method of the class `Flashcards.App`,
and the page's module globals become its fields. The model proves these
properties:

- the index always stays in range;
- Next and Previous step around the deck as a ring and undo each other;
- pressing Next as many times as there are cards comes back to the start;
- every move that renders a card turns it front up and puts that card, with
  `index + 1 / length`, on display;
- the Shuffle button's Fisher–Yates loop rearranges the deck in place without
  adding or losing a card;
- a level key missing from the catalog changes nothing (keys inherited by a
  plain JavaScript object are not modelled; see "Left out").

Files:

- `wrap.dfy` (module `Wrap`): the index arithmetic of Next and Previous.
- `deck.dfy` (module `Deck`): the card record and the shuffle. The shuffle is a
  function of the deck and of the random draws, with its in-place array loop
  proved against that function.
- `flashcards.dfy` (module `Flashcards`): the page state as a class.

Modelling choices:

- **Catalog.** The catalog is a flat map from a level key to a deck, as
  `decks[levelKey]` uses it. It is not a two-level category → subset catalog.
  Each deck is an `array<Card>`. `LoadDeck` makes the current deck that very
  array, as `currentDeck = deck` does, so a shuffle also reorders the catalog's
  entry. The model keeps this aliasing rather than hiding it.
- **Random draws.** `Math.random` is a caller-supplied function `draw`. At step
  `i` the loop swaps with position `draw(i)`, capped at `i`. That value covers
  exactly 0..i, the same range as the scaled and floored random number.
- **Card fields.** A card has the fields `latin`, `pron` and `english`, the
  names the code reads.
- **Loading an empty deck.** `renderCard` returns early when there is no card at
  the index. So loading or shuffling an empty deck does not clear the revealed
  class. The model states this exactly. It does not claim that the revealed flag
  is always false afterwards.
- **Errors.** The code signals no errors for a missing deck or an out-of-range
  row. A missing key is only logged, and the row index always comes from the
  current table. The model follows the code here.
- **The word list.** Clicking a row needs the list to be open, with a row `i`
  from the table that `ShowWordList` filled from the current deck. The object
  invariant then proves `i` is in range for the deck.

## Model

| member | source | states |
|---|---|---|
| `Wrap.NextIndex` | script.js:61 | the next index is in range; it is `i + 1`, except from the last card, where it wraps to 0 |
| `Wrap.PrevIndex` | script.js:66 | the previous index is in range; it is `i - 1`, except from card 0, where it wraps to `n - 1` |
| `Wrap.PrevAfterNext` | script.js:60-67 | Previous after Next restores the index |
| `Wrap.NextAfterPrev` | script.js:60-67 | Next after Previous restores the index |
| `Wrap.NextTimes` | script.js:60-63 | k presses of Next keep the index in range |
| `Wrap.NextTimesBeforeWrap` | script.js:61 | from i, fewer than `n - i` presses of Next move exactly that many cards on, with no wrap |
| `Wrap.NextTimesCompose` | script.js:61 | a presses of Next followed by b presses equal a + b presses |
| `Wrap.NextDeckLengthTimesReturns` | script.js:61 | pressing Next `length` times returns to the starting index |
| `Wrap.NextTimesPeriodic` | script.js:61 | presses of Next are periodic, with period the deck length |
| `Deck.Swap` | script.js:77 | the destructuring swap exchanges the cards at positions i and j and keeps the length |
| `Deck.SwapElsewhere` | script.js:77 | a swap leaves every position other than i and j alone |
| `Deck.SwapPermutes` | script.js:77 | a swap keeps the multiset of cards |
| `Deck.Pick` | script.js:76 | the random index at step i lies in 0..i, and every value of 0..i can be drawn |
| `Deck.Shuffled` | script.js:75-78 | the loop steps i..1 keep the deck's length |
| `Deck.ShuffledStep` | script.js:75-78 | running steps i..1 is step i followed by steps i - 1..1 |
| `Deck.ShuffledPermutes` | script.js:75-78 | the loop steps i..1 keep the multiset of cards |
| `Deck.Shuffle` | script.js:75-78 | the whole loop keeps the deck's length |
| `Deck.ShufflePermutes` | script.js:74-79 | the shuffle is a permutation of the deck, whatever the draws |
| `Deck.ShuffleShortDeckUnchanged` | script.js:75 | a deck of 0 or 1 cards is unchanged, because the loop body never runs |
| `Deck.ShuffledKeepsAbove` | script.js:75-78 | steps i..1 never touch the positions above i |
| `Deck.ShuffledSettles` | script.js:75-78 | after the loop, position i holds the card that step i picked from 0..i |
| `Deck.ShuffledUsesOnlyItsDraws` | script.js:75-78 | the outcome depends only on the draws of the steps that ran |
| `Deck.ShuffledReaches` | script.js:75-78 | steps i..1 can reach any arrangement that has the same cards in 0..i and agrees above i |
| `Deck.ShuffleReachesEveryOrder` | script.js:75-78 | every permutation of the deck is the outcome of some run of in-range draws |
| `Deck.ShuffledDeterminesPicks` | script.js:75-78 | on distinct cards, two runs of steps i..1 that end in the same order made the same pick at every step |
| `Deck.ShuffleDeterminesPicks` | script.js:75-78 | on distinct cards, the shuffle's outcome determines every pick, so picks and orders correspond one to one |
| `Deck.ShuffleInPlace` | script.js:75-78 | the in-place loop over the array leaves exactly `Shuffle(old deck, draw)` in it |
| `Flashcards.Rendered` | script.js:50-57 | the displayed card is the one at `position - 1`, and the progress reads `position / length` with `position == i + 1`, so `1 <= position <= length` |
| `Flashcards.App.constructor` | script.js:5-7 | the state starts with no deck loaded, index 0, the home view, card front up and nothing rendered |
| `Flashcards.App.RenderCard` | script.js:46-58 | with a card at the index, that card and its progress are displayed and the card is front up; otherwise nothing changes |
| `Flashcards.App.ShowView` | script.js:36-41 | exactly view v is visible afterwards; deck, index, reveal state and display are unchanged |
| `Flashcards.App.NextCard` | script.js:60-63 | the index moves to `NextIndex`; the card is front up; the invariant (index in range, current card on display) is kept |
| `Flashcards.App.PrevCard` | script.js:65-68 | the index moves to `PrevIndex`; the card is front up; the invariant is kept |
| `Flashcards.App.RevealCard` | script.js:70-72 | the revealed flag flips; nothing else changes |
| `Flashcards.App.CardClicked` | script.js:159-161 | a click on the card flips the revealed flag, like the Reveal button |
| `Flashcards.App.ShuffleDeck` | script.js:74-82 | the same array now holds `Shuffle(old deck, draw)`, a permutation of it; the index is 0 and the first card is shown front up (an empty deck keeps the reveal state and what the card element showed) |
| `Flashcards.App.ShowWordList` | script.js:149-152 | the table holds one row per card of the current deck, in order, and the word list is the visible view |
| `Flashcards.App.RowClicked` | script.js:107-111 | clicking row i of the open list makes i the index, which is in range; that card is shown front up in the flashcard view |
| `Flashcards.App.LoadDeck` | script.js:121-133 | a missing key changes no state; a present key makes the catalog's array the current deck, at index 0, in the flashcard view, with its first card shown front up (an empty deck keeps the reveal state and what the card element showed) |
| `Flashcards.RevealThenClickRestores` | script.js:70-72 | toggling twice, by the button and then by the card, restores the revealed flag |
| `Flashcards.NextThenPrevRestores` | script.js:60-68 | Next followed by Previous restores the index, with the card front up |

## Left out

- DOM lookups and the `textContent`/`classList` writes (script.js:10-31, 50-54). The model keeps only the abstract results: the revealed flag, the visible view, and what the card element shows (`face`).
- The HTML strings of the table rows and the wiring of listeners (script.js:98-104, 138-154). Only the rows' cards and the row click's effect are modelled.
- The startup `fetch("words.json")` and JSON parsing (script.js:166-172). They are network I/O and asynchronous, so the catalog is a constructor parameter. The window before the fetch completes, when `decks` is still `{}`, is not modelled.
- The toast and its `setTimeout` (script.js:84-88). They are timer-driven presentation only.
- The `console.log`/`console.error` lines of `loadDeck`. They are logging only.
- Flashcards.App.NextCard and Flashcards.App.PrevCard: these require a non-empty deck. On an empty deck the code computes `NaN` through `% 0` and then renders nothing; the model does not mimic `NaN`.
- Flashcards.App.ShuffleDeck: models `Math.random()` only as some index in 0..i at each step. The uniform distribution of floating-point `Math.random` is not modelled. `Deck.ShuffleReachesEveryOrder` and `Deck.ShuffleDeterminesPicks` are proved. They show that in-range picks and the orders of a deck of distinct cards correspond one to one. The count of pick sequences, n!, is not proved. So the probability argument that this gives each order 1/n! stays informal.
- Flashcards.App.constructor: the initial visible view (home) and the card starting front up are assumed. The page markup that fixes them is not part of this model.
- Flashcards.App.LoadDeck: keys that `decks[levelKey]` finds through `Object.prototype` (such as `"constructor"`, `"toString"` or `"__proto__"`) are treated as missing. In the code their truthy values pass the `!deck` test, become `currentDeck`, render nothing and switch to the flashcard view. The model treats them as absent because level keys come only from the home buttons' `data-level` attributes (script.js:140), which are taken to name decks; the page markup is not part of this model.
- A falsy value stored under a key in the catalog (`null`, `0`, `""`), which `!deck` would treat as missing. It cannot occur with a catalog of arrays.
- A falsy card inside a deck, which `if (!word) return;` would skip. It cannot occur with a card record.
