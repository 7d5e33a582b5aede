/**
 * Sessions driven through the widget's buttons: a change followed by an
 * undo, an ignore followed by an undo, and the review of "Helo wrold" from
 * opening the dialog to the "completed" message.
 */
module Scenarios {
  import opened Wrappers
  import opened JsObjects
  import opened Scanner
  import opened Replacement
  import opened Session

  /**
   * Undo right after a change gives back the text, the queue, the word under
   * review, its count and the cursor, whether or not the change resolved
   * the word. A second undo then changes nothing.
   */
  method ChangeThenUndo(c: SpellChecker, newWord: string, all: bool)
    requires c.Valid() && |c.wordKeys| > 0
    modifies c
    ensures c.Valid() && c.isOpen && !c.canUndo
    ensures c.text == old(c.text) && c.wordKeys == old(c.wordKeys)
    ensures c.currentWord == old(c.currentWord) && c.wordMatches == old(c.wordMatches)
    ensures c.matchOffset == old(c.matchOffset) && c.wordObject == old(c.wordObject)
  {
    c.Change(newWord, all);
    c.Undo();
    c.Undo();
  }

  /** Ignoring withdraws the undo of an earlier change: the undo button then does nothing. */
  method IgnoreThenUndo(c: SpellChecker, all: bool)
    requires c.Valid() && |c.wordKeys| > 0
    modifies c
    ensures c.Valid() && c.isOpen && !c.canUndo
    ensures c.text == old(c.text)
    ensures var resolved := Resolves(all, old(c.wordMatches), old(c.matchOffset));
      && c.wordKeys == (if resolved then old(c.wordKeys)[1..] else old(c.wordKeys))
      && c.matchOffset == (if resolved then 1 else old(c.matchOffset) + 1)
  {
    c.Ignore(all);
    c.Undo();
  }

  /** Closing twice leaves the same empty, closed widget as closing once. */
  method CloseTwice(c: SpellChecker)
    requires c.Valid()
    modifies c
    ensures c.Valid() && !c.isOpen && !c.canUndo && c.wordKeys == []
    ensures old(c.isOpen) ==> c.status == Hidden && c.text == [] && c.currentWord == [] && c.wordMatches == 0 && c.matchOffset == 0
    ensures !old(c.isOpen) ==> c.status == old(c.status)
  {
    c.Close();
    c.Close();
  }

  /** The server's answer for "Helo wrold": two misspelled words, one suggestion each. */
  function HeloAnswer(): CheckResult {
    CheckResult(true, true, [("Helo", ["Hello"]), ("wrold", ["world"])])
  }

  /** The answer can start a review, and its words come in the order the server sent them. */
  lemma HeloAnswerReviewable()
    ensures Reviewable(HeloAnswer())
    ensures KeysOf(HeloAnswer().words) == ["Helo", "wrold"]
    ensures SuggestionsFor(HeloAnswer().words, "Helo") == ["Hello"]
  {
    var words := HeloAnswer().words;
    assert KeysOf(words[1..]) == ["wrold"];
    assert "Helo"[0] != "wrold"[0];
  }

  /**
   * Opening the dialog on "Helo wrold" and receiving the answer puts "Helo"
   * under review: one occurrence, its suggestion listed, and a context box
   * that is empty on both sides of it.
   */
  method HeloReview() returns (c: SpellChecker)
    ensures fresh(c)
    ensures c.Valid() && c.isOpen && c.status == Reviewing && c.text == "Helo wrold"
    ensures c.wordKeys == ["Helo", "wrold"] && c.currentWord == "Helo"
    ensures c.wordMatches == 1 && c.matchOffset == 1 && !c.canUndo
    ensures c.suggestions == ["Hello"]
    ensures c.context == Some(Context("", "Helo", ""))
  {
    HeloAnswerReviewable();
    HeloContext();
    hide Occurrences, ContextAt, Reviewable, KeysOf, SuggestionsFor, SpellChecker.Valid;
    c := new SpellChecker();
    var sent := c.Open("Helo wrold", true);
    assert sent;
    c.HandleResponse(Some(HeloAnswer()));
  }

  /**
   * Ignoring "Helo" and then every "wrold" empties the queue: the
   * "completed" message is shown, but the dialog stays open.
   */
  method HeloSession() returns (c: SpellChecker)
    ensures fresh(c)
    ensures c.Valid() && c.status == Completed && c.isOpen
    ensures c.wordKeys == [] && c.text == "Helo wrold" && !c.canUndo
  {
    c := HeloReview();
    c.Ignore(false);
    assert c.wordKeys == ["wrold"];
    c.Ignore(true);
  }

  /**
   * After completion the queue is empty; ignoring all again drops nothing,
   * shows "completed" again and leaves the text as it was.
   */
  method IgnoreAfterCompletion() returns (c: SpellChecker)
    ensures c.Valid() && c.status == Completed && c.isOpen
    ensures c.wordKeys == [] && c.text == "Helo wrold" && !c.canUndo && c.matchOffset == 1
  {
    c := HeloSession();
    c.Ignore(true);
  }

  /**
   * Changing "Helo" to "Hello" and then "wrold" to "world", one occurrence
   * each, gives "Hello world" and completes the review; the dialog stays open
   * and the last change can still be undone.
   */
  method HeloChangeSession() returns (c: SpellChecker)
    ensures fresh(c)
    ensures c.Valid() && c.status == Completed && c.isOpen && c.canUndo
    ensures c.wordKeys == [] && c.text == "Hello world"
    ensures c.undoText == "Hello wrold" && c.undoPrevious == "wrold"
  {
    c := HeloReview();
    HeloFirstChange();
    HeloSecondChange();
    WroldOccurrences();
    hide Occurrences, ContextAt, Replaced, SpellChecker.Valid;
    c.Change("Hello", false);
    assert c.text == "Hello wrold" && c.wordKeys == ["wrold"];
    assert c.currentWord == "wrold" && c.wordMatches == 1 && c.matchOffset == 1;
    c.Change("world", false);
  }

  /**
   * Undo after completion brings back the text and the word, but the
   * "completed" message stays: the review box is not shown again.
   */
  method UndoAfterCompletion() returns (c: SpellChecker)
    ensures c.Valid() && c.status == Completed && c.isOpen && !c.canUndo
    ensures c.text == "Hello wrold" && c.wordKeys == ["wrold"] && c.currentWord == "wrold"
  {
    c := HeloChangeSession();
    c.Undo();
  }
}
