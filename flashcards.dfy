/**
 * The navigation state of the flashcard page: the deck being studied, the
 * current card, whether its back is revealed, which of the three views is on
 * screen, and the word-list table.  The page's module globals become the
 * fields of one object; each button or click handler becomes a method.
 */
module Flashcards {
  import opened Wrap
  import opened Deck

  datatype Option<T> = None | Some(value: T)

  /** The three sections of the page; exactly one is shown at a time. */
  datatype View = Home | Flashcard | AllWords

  /** The progress line under the card: "position / total". */
  datatype Progress = Progress(position: nat, total: nat)

  /** What the card element displays: the card's texts on both faces, and the progress line. */
  datatype Face = Face(card: Card, progress: Progress)

  /** What rendering the card at index i of the deck puts on screen. */
  function Rendered(deck: seq<Card>, i: nat): (f: Face)
    requires i < |deck|
    ensures 1 <= f.progress.position <= f.progress.total == |deck|
    ensures f.card == deck[f.progress.position - 1]
    ensures f.progress.position == i + 1
  {
    Face(deck[i], Progress(i + 1, |deck|))
  }

  class App {
    /** The decks by level key, as loaded at startup; each deck is an array shared with `deck` once loaded. */
    const catalog: map<string, array<Card>>
    /** The deck being studied.  After a load it IS the catalog's array, so a shuffle reorders that entry too. */
    var deck: array<Card>
    var index: nat
    /** The "revealed" class of the card element. */
    var revealed: bool
    /** The view that is not hidden. */
    var view: View
    /** What the card element last displayed; None before the first render. */
    var face: Option<Face>
    /** The cards the word-list table was last filled with, one row each. */
    var rows: seq<Card>

    /**
     * The index is in range (0 when the deck is empty), a non-empty deck comes
     * from the catalog and is the one on display, and an open word list has
     * one row per card of the deck.
     */
    ghost predicate Valid()
      reads this, deck
    {
      && CardValid()
      && (view == AllWords ==> |rows| == deck.Length)
    }

    /** The part of Valid that does not concern the word list. */
    ghost predicate CardValid()
      reads this, deck
    {
      && (deck.Length == 0 ==> index == 0)
      && (deck.Length > 0 ==> index < deck.Length)
      && (deck.Length > 0 ==> deck in catalog.Values)
      && (deck.Length > 0 ==> face == Some(Rendered(deck[..], index)))
    }

    /** The page once the catalog has arrived: empty deck, home view, nothing rendered. */
    constructor (catalog: map<string, array<Card>>)
      ensures Valid()
      ensures this.catalog == catalog
      ensures deck.Length == 0 && index == 0 && !revealed && view == Home
      ensures face == None && rows == []
    {
      this.catalog := catalog;
      deck := new Card[0];
      index := 0;
      revealed := false;
      view := Home;
      face := None;
      rows := [];
    }

    /**
     * Shows the card at the index and hides its back, unless there is no card
     * there, in which case nothing changes.
     */
    method RenderCard()
      modifies this
      ensures deck == old(deck) && index == old(index) && view == old(view) && rows == old(rows)
      ensures index < deck.Length ==> !revealed && face == Some(Rendered(deck[..], index))
      ensures index >= deck.Length ==> revealed == old(revealed) && face == old(face)
    {
      if index < deck.Length {
        face := Some(Rendered(deck[..], index));
        revealed := false;
      }
    }

    /** Hides every view but v. */
    method ShowView(v: View)
      requires CardValid()
      requires v == AllWords ==> |rows| == deck.Length
      modifies this
      ensures Valid()
      ensures view == v
      ensures deck == old(deck) && index == old(index) && revealed == old(revealed)
      ensures face == old(face) && rows == old(rows)
    {
      view := v;
    }

    /** The Next button: one card on, from the last back to the first. */
    method NextCard()
      requires Valid() && deck.Length > 0
      modifies this
      ensures Valid()
      ensures deck == old(deck) && view == old(view) && rows == old(rows)
      ensures index == NextIndex(old(index), deck.Length)
      ensures !revealed
    {
      index := NextIndex(index, deck.Length);
      RenderCard();
    }

    /** The Previous button: one card back, from the first to the last. */
    method PrevCard()
      requires Valid() && deck.Length > 0
      modifies this
      ensures Valid()
      ensures deck == old(deck) && view == old(view) && rows == old(rows)
      ensures index == PrevIndex(old(index), deck.Length)
      ensures !revealed
    {
      index := PrevIndex(index, deck.Length);
      RenderCard();
    }

    /** The Reveal button: turns the card over, either way. */
    method RevealCard()
      requires Valid()
      modifies this
      ensures Valid()
      ensures revealed == !old(revealed)
      ensures deck == old(deck) && index == old(index) && view == old(view)
      ensures face == old(face) && rows == old(rows)
    {
      revealed := !revealed;
    }

    /** A click on the card itself toggles the same class as the Reveal button. */
    method CardClicked()
      requires Valid()
      modifies this
      ensures Valid()
      ensures revealed == !old(revealed)
      ensures deck == old(deck) && index == old(index) && view == old(view)
      ensures face == old(face) && rows == old(rows)
    {
      RevealCard();
    }

    /**
     * The Shuffle button: a Fisher-Yates pass over the deck in place, then
     * back to the first card.  On an empty deck nothing is rendered, so the
     * card element keeps what it showed.
     */
    method ShuffleDeck(draw: nat -> nat)
      requires Valid()
      modifies this, deck
      ensures Valid()
      ensures deck == old(deck) && deck[..] == Shuffle(old(deck[..]), draw)
      ensures multiset(deck[..]) == multiset(old(deck[..]))
      ensures index == 0
      ensures revealed == (old(revealed) && deck.Length == 0)
      ensures deck.Length > 0 ==> face == Some(Rendered(deck[..], 0))
      ensures deck.Length == 0 ==> face == old(face)
      ensures view == old(view) && rows == old(rows)
    {
      ShuffleInPlace(deck, draw);
      ShufflePermutes(old(deck[..]), draw);
      index := 0;
      RenderCard();
    }

    /** The List button: fills the table with one row per card of the deck, then shows it. */
    method ShowWordList()
      requires Valid()
      modifies this
      ensures Valid()
      ensures rows == deck[..] && view == AllWords
      ensures deck == old(deck) && index == old(index) && revealed == old(revealed) && face == old(face)
    {
      rows := deck[..];
      ShowView(AllWords);
    }

    /** A click on row i of the open word list: that card, front up, in the flashcard view. */
    method RowClicked(i: nat)
      requires Valid() && view == AllWords && i < |rows|
      modifies this
      ensures Valid()
      ensures i < deck.Length && index == i
      ensures !revealed && view == Flashcard
      ensures face == Some(Rendered(deck[..], i))
      ensures deck == old(deck) && rows == old(rows)
    {
      index := i;
      RenderCard();
      ShowView(Flashcard);
    }

    /**
     * A level button: a key the catalog lacks changes nothing; otherwise its
     * deck becomes the current one at its first card, in the flashcard view.
     * An empty deck has no card to render, so the revealed class and the card
     * element's old contents stay as they were.
     */
    method LoadDeck(key: string)
      requires Valid()
      modifies this
      ensures Valid()
      ensures key !in catalog ==>
        && deck == old(deck) && index == old(index) && revealed == old(revealed)
        && view == old(view) && face == old(face) && rows == old(rows)
      ensures key in catalog ==>
        && deck == catalog[key] && index == 0 && view == Flashcard && rows == old(rows)
        && revealed == (old(revealed) && deck.Length == 0)
        && (deck.Length > 0 ==> face == Some(Rendered(deck[..], 0)))
        && (deck.Length == 0 ==> face == old(face))
    {
      if key !in catalog {
        return;
      }
      deck := catalog[key];
      index := 0;
      RenderCard();
      ShowView(Flashcard);
    }
  }

  /** Pressing Reveal and then clicking the card shows the card as it was. */
  method RevealThenClickRestores(app: App)
    requires app.Valid()
    modifies app
    ensures app.Valid()
    ensures app.revealed == old(app.revealed)
    ensures app.deck == old(app.deck) && app.index == old(app.index) && app.view == old(app.view)
  {
    app.RevealCard();
    app.CardClicked();
  }

  /** Next followed by Previous comes back to the same card, front up. */
  method NextThenPrevRestores(app: App)
    requires app.Valid() && app.deck.Length > 0
    modifies app
    ensures app.Valid()
    ensures app.index == old(app.index) && !app.revealed
    ensures app.deck == old(app.deck) && app.view == old(app.view)
  {
    app.NextCard();
    app.PrevCard();
    PrevAfterNext(old(app.index), app.deck.Length);
  }
}
