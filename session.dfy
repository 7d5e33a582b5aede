/**
 * The review session of `sc.SpellChecker`: the widget's state from opening the
 * dialog, through the server's answer and the review of each misspelled word,
 * to closing it. The fields are the widget's own; JavaScript `null`, which
 * `_closeChecker` stores in them, is modelled as the empty value of each type.
 */
module Session {
  import opened Wrappers
  import opened JsObjects
  import opened Scanner
  import opened Replacement

  /** The message `_notifyMsg` puts in front of the dialog, or none. */
  datatype Status =
    | Hidden        // no message: before the first check and after closing
    | Checking      // 'a': the text has been sent
    | ServiceError  // 'b': no transport, a failed request or an unreadable answer
    | NoErrors      // 'c': nothing to review
    | Completed     // 'd': the last word has been resolved
    | Reviewing     // `_showReviewer`: the review box is in front

  /** The decoded answer of the server: its flags and each misspelled word with its suggestions. */
  datatype CheckResult = CheckResult(success: bool, errors: bool, words: Object<seq<string>>)

  /**
   * An answer `_begin` can start a review with: `_reviewWord` reads the first
   * key, and an empty key makes a pattern that matches everywhere.
   */
  predicate Reviewable(r: CheckResult) {
    WellFormed(r.words) && r.words != [] && forall i :: 0 <= i < |r.words| ==> |r.words[i].0| > 0
  }

  /**
   * The rule `_ignoreChange` and `_makeChange` share: the word under review
   * leaves the queue when the action is for all occurrences, when it has at
   * most one occurrence, or when the cursor is on its last one.
   */
  predicate Resolves(all: bool, wordMatches: nat, matchOffset: nat) {
    all || wordMatches <= 1 || matchOffset == wordMatches
  }

  /** `splice(0, 1)`: the array without its first element; an empty array stays empty. */
  function WithoutHead(keys: seq<string>): seq<string> {
    if keys == [] then [] else keys[1..]
  }

  /** The options `_setSuggestionOptions` lists for a word. */
  function SuggestionsFor(words: Object<seq<string>>, word: string): seq<string> {
    match Get(words, word)
    case Some(list) => list
    case None => []
  }

  /**
   * The options listed for a word are the list the server sent under that
   * word, and there are none for a word it did not send.
   */
  lemma {:induction false} SuggestionsForSpec(words: Object<seq<string>>, word: string)
    ensures word in KeysOf(words) ==> exists i :: 0 <= i < |words| && words[i] == (word, SuggestionsFor(words, word))
    ensures WellFormed(words) ==>
      forall i :: 0 <= i < |words| && words[i].0 == word ==> SuggestionsFor(words, word) == words[i].1
    ensures word !in KeysOf(words) ==> SuggestionsFor(words, word) == []
  {
    KeysOfHasKey(words, word);
    GetAtKey(words, word);
    if Get(words, word).Some? {
      GetFound(words, word);
    }
  }

  /** The context box keeps what it showed when the cursor is past the last occurrence. */
  function ShownContext(shown: Option<Context>, text: string, word: string, offset: nat): Option<Context>
    requires |word| > 0
  {
    var c := ContextAt(text, word, offset);
    if c.Some? then c else shown
  }

  /** A review queue: no word twice and no empty word. */
  ghost predicate QueueOk(keys: seq<string>) {
    Distinct(keys) && forall i :: 0 <= i < |keys| ==> |keys[i]| > 0
  }

  /** The head of a queue is a non-empty word that does not come again, and the rest is a queue. */
  lemma {:induction false} QueueParts(keys: seq<string>)
    requires QueueOk(keys) && keys != []
    ensures |keys[0]| > 0 && keys[0] !in keys[1..] && QueueOk(keys[1..])
  {
    HeadNotInTail(keys);
  }

  /** The words of an answer `_begin` reviews form a queue. */
  lemma {:induction false} ReviewableQueue(r: CheckResult)
    requires Reviewable(r)
    ensures QueueOk(KeysOf(r.words)) && KeysOf(r.words) != []
  {
    KeysOfShape(r.words);
  }

  class SpellChecker {
    var text: string
    var wordObject: Object<seq<string>>
    /** The words still to review; the head is the one under review. */
    var wordKeys: seq<string>
    var currentWord: string
    /** How many occurrences of `currentWord` the review steps through. */
    var wordMatches: nat
    /** Which of them is under review, counting from 1. */
    var matchOffset: nat
    var canUndo: bool
    /** The hidden text area holding the text before the last change. */
    var undoText: string
    var undoPrevious: string
    var previousWordMatches: nat
    var previousMatchOffset: nat
    var isOpen: bool
    var status: Status
    /** The options of the suggestion box. */
    var suggestions: seq<string>
    /** What the context box shows. */
    var context: Option<Context>
    /** The queue as it was just before the last change, which an undo restores. */
    ghost var undoKeys: seq<string>

    /** The snapshot `_makeChange` takes is what `_undoChange` needs to restore the review. */
    ghost predicate UndoOk()
      reads this
    {
      && QueueOk(undoKeys) && undoKeys != [] && undoKeys[0] == undoPrevious
      && (wordKeys == undoKeys || wordKeys == undoKeys[1..])
      && previousMatchOffset >= 1
      && previousWordMatches == MatchCount(undoText, undoPrevious)
    }

    ghost predicate Valid()
      reads this
    {
      && QueueOk(wordKeys)
      && (|wordKeys| > 0 ==>
            isOpen && currentWord == wordKeys[0] && matchOffset >= 1
            && wordMatches == MatchCount(text, currentWord))
      && (canUndo ==> isOpen && UndoOk())
      && (!isOpen ==> wordKeys == [] && !canUndo)
    }

    /** `enable`: the widget starts closed, with no session. */
    constructor ()
      ensures Valid() && !isOpen && status == Hidden
      ensures wordKeys == [] && !canUndo && text == [] && undoText == []
    {
      text, wordObject, wordKeys, currentWord := [], [], [], [];
      wordMatches, matchOffset, canUndo := 0, 0, false;
      undoText, undoPrevious, previousWordMatches, previousMatchOffset := [], [], 0, 0;
      isOpen, status, suggestions, context := false, Hidden, [], None;
      undoKeys := [];
    }

    /**
     * `_openChecker` and `_sendData` up to the request: `value` is the text
     * field's content and `transportAvailable` whether a request object could
     * be made. Returns whether the text was sent.
     */
    method Open(value: string, transportAvailable: bool) returns (requestSent: bool)
      requires Valid()
      modifies this
      ensures Valid()
      ensures old(isOpen) ==> !requestSent && unchanged(this)
      ensures !old(isOpen) ==>
        && text == value && isOpen && !canUndo
        && requestSent == (transportAvailable && |value| >= 2)
        && status == (if !transportAvailable then ServiceError else if |value| < 2 then NoErrors else Checking)
        && wordKeys == old(wordKeys) && wordObject == old(wordObject) && currentWord == old(currentWord)
        && wordMatches == old(wordMatches) && matchOffset == old(matchOffset)
        && undoText == old(undoText) && undoPrevious == old(undoPrevious)
        && previousWordMatches == old(previousWordMatches) && previousMatchOffset == old(previousMatchOffset)
        && suggestions == old(suggestions) && context == old(context) && undoKeys == old(undoKeys)
    {
      hide ContextAt, MatchCount, QueueOk, Distinct;
      if isOpen {
        return false;
      }
      text := value;
      canUndo := false;
      isOpen := true;
      status := Checking;
      if !transportAvailable {
        status := ServiceError;
        return false;
      }
      if |text| < 2 {
        status := NoErrors;
        return false;
      }
      return true;
    }

    /**
     * `_handleXHR` together with the status test of the request: `None` is a
     * failed request or an answer that does not decode.
     */
    method HandleResponse(response: Option<CheckResult>)
      requires Valid() && isOpen
      requires response.Some? && response.value.success && response.value.errors ==> Reviewable(response.value)
      modifies this
      ensures Valid()
      ensures response.None? ==> status == ServiceError
      ensures response.Some? && !response.value.success ==> unchanged(this)
      ensures response.Some? && response.value.success && !response.value.errors ==> status == NoErrors
      ensures response.None? || (response.value.success && !response.value.errors) ==>
        unchanged(this`text, this`wordObject, this`wordKeys, this`currentWord, this`wordMatches, this`matchOffset,
                  this`canUndo, this`undoText, this`undoPrevious, this`previousWordMatches, this`previousMatchOffset,
                  this`isOpen, this`suggestions, this`context, this`undoKeys)
      ensures response.Some? && response.value.success && response.value.errors ==>
        && undoText == old(text) && text == old(text) && !canUndo && isOpen && status == Reviewing
        && wordObject == response.value.words && wordKeys == KeysOf(response.value.words) && matchOffset == 1
        && currentWord == wordKeys[0] && wordMatches == MatchCount(text, currentWord)
        && suggestions == SuggestionsFor(wordObject, currentWord)
        && context == ShownContext(old(context), text, currentWord, 1)
        && unchanged(this`undoPrevious, this`previousWordMatches, this`previousMatchOffset, this`undoKeys)
    {
      hide ContextAt, MatchCount, QueueOk, Distinct;
      if response.None? {
        status := ServiceError;
      } else {
        Begin(response.value);
      }
    }

    /**
     * `_begin`: an answer with errors starts the review at the first of its
     * words; one without asks for the "no errors" message; one without
     * `success` is ignored.
     */
    method Begin(r: CheckResult)
      requires Valid() && isOpen
      requires r.success && r.errors ==> Reviewable(r)
      modifies this
      ensures Valid()
      ensures !r.success ==> unchanged(this)
      ensures r.success && !r.errors ==>
        && status == NoErrors
        && unchanged(this`text, this`wordObject, this`wordKeys, this`currentWord, this`wordMatches, this`matchOffset,
                     this`canUndo, this`undoText, this`undoPrevious, this`previousWordMatches, this`previousMatchOffset,
                     this`isOpen, this`suggestions, this`context, this`undoKeys)
      ensures r.success && r.errors ==>
        && undoText == old(text) && text == old(text) && !canUndo && isOpen
        && wordObject == r.words && wordKeys == KeysOf(r.words) && matchOffset == 1
        && status == Reviewing
        && currentWord == wordKeys[0] && wordMatches == MatchCount(text, currentWord)
        && suggestions == SuggestionsFor(wordObject, currentWord)
        && context == ShownContext(old(context), text, currentWord, 1)
        && unchanged(this`undoPrevious, this`previousWordMatches, this`previousMatchOffset, this`undoKeys)
    {
      hide ContextAt, MatchCount, QueueOk, Distinct;
      if r.success {
        if r.errors {
          ReviewableQueue(r);
          undoText := text;
          canUndo := false;
          wordObject := r.words;
          KeysOfShape(r.words);
          wordKeys := ObjectKeys(wordObject);
          matchOffset := 1;
          status := Reviewing;
          ReviewWord();
        } else {
          status := NoErrors;
        }
      }
    }

    /**
     * `_reviewWord`: the head of the queue becomes the word under review; its
     * occurrences are counted in the current text, its suggestions listed and
     * the context of the occurrence under the cursor shown.
     */
    method ReviewWord()
      requires |wordKeys| > 0 && |wordKeys[0]| > 0
      modifies this`currentWord, this`wordMatches, this`suggestions, this`context
      ensures currentWord == wordKeys[0]
      ensures wordMatches == MatchCount(text, currentWord)
      ensures suggestions == SuggestionsFor(wordObject, currentWord)
      ensures context == ShownContext(old(context), text, currentWord, matchOffset)
    {
      currentWord := wordKeys[0];
      wordMatches := CountMatches(text, currentWord);
      SetSuggestionOptions();
      SetContextBox();
    }

    /** `_setSuggestionOptions`: the suggestion box lists the server's suggestions for the word under review. */
    method SetSuggestionOptions()
      modifies this`suggestions
      ensures suggestions == SuggestionsFor(wordObject, currentWord)
    {
      suggestions := SuggestionsFor(wordObject, currentWord);
    }

    /**
     * `_setContextBox`: the context box shows the occurrence under the cursor,
     * and keeps what it showed when there is no such occurrence.
     */
    method SetContextBox()
      requires |currentWord| > 0
      modifies this`context
      ensures context == ShownContext(old(context), text, currentWord, matchOffset)
    {
      hide ContextAt;
      var found := FindContext(text, currentWord, matchOffset);
      if found.Some? {
        context := found;
      }
    }

    /**
     * `_ignoreChange`: the word leaves the queue when `Resolves` says so and
     * the cursor goes back to 1; otherwise the cursor moves to the next
     * occurrence. Undo is no longer offered. The review goes on while the queue
     * is not empty; otherwise the session is completed but stays open.
     *
     * The buttons stay clickable after completion. The queue is then empty;
     * an ignore that resolves drops nothing and shows "completed" again, and
     * one that does not would review an undefined word and throw.
     */
    method Ignore(all: bool)
      requires Valid()
      requires |wordKeys| > 0 || (isOpen && status == Completed && Resolves(all, wordMatches, matchOffset))
      modifies this
      ensures Valid()
      ensures var resolved := Resolves(all, old(wordMatches), old(matchOffset));
        && wordKeys == (if resolved then WithoutHead(old(wordKeys)) else old(wordKeys))
        && matchOffset == (if resolved then 1 else old(matchOffset) + 1)
      ensures !canUndo && isOpen
      ensures text == old(text) && wordObject == old(wordObject) && undoText == old(undoText)
      ensures unchanged(this`undoPrevious, this`previousWordMatches, this`previousMatchOffset, this`undoKeys)
      ensures |wordKeys| > 0 ==>
        && status == old(status)
        && currentWord == wordKeys[0] && wordMatches == MatchCount(text, currentWord)
        && suggestions == SuggestionsFor(wordObject, currentWord)
        && context == ShownContext(old(context), text, currentWord, matchOffset)
      ensures |wordKeys| == 0 ==>
        && status == Completed
        && currentWord == old(currentWord) && wordMatches == old(wordMatches)
        && suggestions == old(suggestions) && context == old(context)
    {
      hide ContextAt, MatchCount, QueueOk, Distinct;
      if wordKeys != [] {
        QueueParts(wordKeys);
      }
      var moreMatches: bool;
      if all || wordMatches <= 1 || matchOffset == wordMatches {
        DropWord();
        moreMatches := false;
      } else {
        matchOffset := matchOffset + 1;
        moreMatches := true;
      }
      canUndo := false;
      ReviewNextOrComplete(moreMatches);
    }

    /**
     * `_makeChange`: the text, word, count and cursor are saved for undo, then
     * the `matchOffset`-th raw match of the word, or every one, becomes
     * `newWord`. The queue follows `Resolves` as for ignore, but the cursor
     * does not move when the word stays. The review then goes on with the
     * recounted occurrences or is completed.
     */
    method Change(newWord: string, all: bool)
      requires Valid() && |wordKeys| > 0
      modifies this
      ensures Valid()
      ensures canUndo && isOpen
      ensures undoText == old(text) && undoPrevious == old(currentWord)
      ensures previousWordMatches == old(wordMatches) && previousMatchOffset == old(matchOffset)
      ensures undoKeys == old(wordKeys)
      ensures text == Replaced(old(text), old(currentWord), newWord, all, old(matchOffset))
      ensures var resolved := Resolves(all, old(wordMatches), old(matchOffset));
        && wordKeys == (if resolved then old(wordKeys)[1..] else old(wordKeys))
        && matchOffset == (if resolved then 1 else old(matchOffset))
      ensures wordObject == old(wordObject)
      ensures |wordKeys| > 0 ==>
        && status == old(status)
        && currentWord == wordKeys[0] && wordMatches == MatchCount(text, currentWord)
        && suggestions == SuggestionsFor(wordObject, currentWord)
        && context == ShownContext(old(context), text, currentWord, matchOffset)
      ensures |wordKeys| == 0 ==>
        && status == Completed
        && currentWord == old(currentWord) && wordMatches == old(wordMatches)
        && suggestions == old(suggestions) && context == old(context)
    {
      hide ContextAt, MatchCount, QueueOk, Distinct;
      QueueParts(wordKeys);
      SaveForUndo();
      var newText := ReplaceMatches(text, currentWord, newWord, all, matchOffset);
      var moreMatches: bool;
      if all || wordMatches <= 1 || matchOffset == wordMatches {
        DropWord();
        moreMatches := false;
      } else {
        moreMatches := true;
      }
      text := newText;
      ReviewNextOrComplete(moreMatches);
    }

    /**
     * The last step of `_ignoreChange` and `_makeChange`: the review goes on
     * while a word is left, and the "completed" message is shown otherwise.
     */
    method ReviewNextOrComplete(moreMatches: bool)
      requires moreMatches ==> |wordKeys| > 0
      requires |wordKeys| > 0 ==> |wordKeys[0]| > 0
      modifies this`currentWord, this`wordMatches, this`suggestions, this`context, this`status
      ensures |wordKeys| > 0 ==>
        && status == old(status)
        && currentWord == wordKeys[0] && wordMatches == MatchCount(text, currentWord)
        && suggestions == SuggestionsFor(wordObject, currentWord)
        && context == ShownContext(old(context), text, currentWord, matchOffset)
      ensures |wordKeys| == 0 ==>
        && status == Completed
        && currentWord == old(currentWord) && wordMatches == old(wordMatches)
        && suggestions == old(suggestions) && context == old(context)
    {
      if |wordKeys| > 0 || moreMatches {
        ReviewWord();
      } else {
        status := Completed;
      }
    }

    /** `splice(0, 1)` on the queue, with the cursor back on the first occurrence for the next word. */
    method DropWord()
      modifies this`wordKeys, this`matchOffset
      ensures wordKeys == WithoutHead(old(wordKeys)) && matchOffset == 1
    {
      wordKeys := WithoutHead(wordKeys);
      matchOffset := 1;
    }

    /** The first step of `_makeChange`: the text, the word, its count and the cursor are kept for undo, which is enabled. */
    method SaveForUndo()
      modifies this`undoText, this`undoPrevious, this`previousWordMatches, this`previousMatchOffset, this`undoKeys, this`canUndo
      ensures undoText == text && undoPrevious == currentWord
      ensures previousWordMatches == wordMatches && previousMatchOffset == matchOffset
      ensures undoKeys == wordKeys && canUndo
    {
      undoText, undoPrevious := text, currentWord;
      previousWordMatches, previousMatchOffset := wordMatches, matchOffset;
      undoKeys := wordKeys;
      canUndo := true;
    }

    /** The undo button: nothing happens unless `canUndo`; otherwise `_undoChange` runs. */
    method Undo()
      requires Valid() && isOpen
      modifies this
      ensures Valid()
      ensures !old(canUndo) ==> unchanged(this)
      ensures old(canUndo) ==>
        && text == old(undoText) && currentWord == old(undoPrevious)
        && wordMatches == old(previousWordMatches) && matchOffset == old(previousMatchOffset)
        && wordKeys == (if old(undoPrevious) in old(wordKeys) then old(wordKeys) else [old(undoPrevious)] + old(wordKeys))
        && wordKeys == old(undoKeys)
        && !canUndo && undoText == [] && isOpen
        && status == old(status) && wordObject == old(wordObject)
        && suggestions == SuggestionsFor(wordObject, currentWord)
        && context == ShownContext(old(context), text, currentWord, matchOffset)
        && undoPrevious == old(undoPrevious) && previousWordMatches == old(previousWordMatches)
        && previousMatchOffset == old(previousMatchOffset) && undoKeys == old(undoKeys)
    {
      if canUndo {
        UndoChange();
      }
    }

    /**
     * `_undoChange`: puts back the text, the word, its count and the cursor
     * saved by the last change, returns the word to the front of the queue if
     * the change had removed it, and empties the hidden text area.
     */
    method UndoChange()
      requires Valid() && isOpen && canUndo
      modifies this
      ensures Valid()
      ensures && text == old(undoText) && currentWord == old(undoPrevious)
        && wordMatches == old(previousWordMatches) && matchOffset == old(previousMatchOffset)
        && wordKeys == (if old(undoPrevious) in old(wordKeys) then old(wordKeys) else [old(undoPrevious)] + old(wordKeys))
        && wordKeys == old(undoKeys)
        && !canUndo && undoText == [] && isOpen
        && status == old(status) && wordObject == old(wordObject)
        && suggestions == SuggestionsFor(wordObject, currentWord)
        && context == ShownContext(old(context), text, currentWord, matchOffset)
        && undoPrevious == old(undoPrevious) && previousWordMatches == old(previousWordMatches)
        && previousMatchOffset == old(previousMatchOffset) && undoKeys == old(undoKeys)
    {
      hide ContextAt, MatchCount, QueueOk, Distinct, SuggestionsFor, ShownContext;
      QueueParts(undoKeys);
      var previousWord := undoPrevious;
      RestoreSaved();
      RestoreWord(previousWord);
      UndoRestoresQueue(old(wordKeys), undoKeys);
      canUndo, undoText := false, [];
      SetSuggestionOptions();
      SetContextBox();
    }

    /** `_undoChange` puts back the text, the word, its count and the cursor that `_makeChange` saved. */
    method RestoreSaved()
      modifies this`text, this`currentWord, this`wordMatches, this`matchOffset
      ensures text == undoText && currentWord == undoPrevious
      ensures wordMatches == previousWordMatches && matchOffset == previousMatchOffset
    {
      text, currentWord := undoText, undoPrevious;
      wordMatches, matchOffset := previousWordMatches, previousMatchOffset;
    }

    /** The word goes back to the front of the queue unless `sc.contains` finds it there. */
    method RestoreWord(word: string)
      modifies this`wordKeys
      ensures wordKeys == if word in old(wordKeys) then old(wordKeys) else [word] + old(wordKeys)
    {
      var present := Contains(wordKeys, word);
      if !present {
        wordKeys := [word] + wordKeys;
      }
    }

    /** `_closeChecker`: nothing happens unless open; otherwise every session field is cleared. */
    method Close()
      requires Valid()
      modifies this
      ensures Valid()
      ensures !old(isOpen) ==> unchanged(this)
      ensures old(isOpen) ==>
        && !isOpen && status == Hidden
        && text == [] && wordObject == [] && wordKeys == [] && currentWord == []
        && wordMatches == 0 && matchOffset == 0 && !canUndo
        && undoPrevious == [] && previousWordMatches == 0 && previousMatchOffset == 0
        && suggestions == [] && context == None
        && undoText == old(undoText) && undoKeys == old(undoKeys)
    {
      hide UndoOk, MatchCount, ContextAt;
      if !isOpen {
        return;
      }
      ClearReview();
      ClearUndo();
      text, isOpen, status := [], false, Hidden;
    }

    /** The review half of `_closeChecker`: the word list, the cursor and the review box are emptied. */
    method ClearReview()
      modifies this`wordObject, this`wordKeys, this`currentWord, this`wordMatches, this`matchOffset, this`suggestions, this`context
      ensures wordObject == [] && wordKeys == [] && currentWord == []
      ensures wordMatches == 0 && matchOffset == 0 && suggestions == [] && context == None
    {
      wordObject, wordKeys, currentWord := [], [], [];
      wordMatches, matchOffset, suggestions, context := 0, 0, [], None;
    }

    /** The undo half of `_closeChecker`: the saved word, count and cursor are dropped; the hidden text area is left as it is. */
    method ClearUndo()
      modifies this`canUndo, this`undoPrevious, this`previousWordMatches, this`previousMatchOffset
      ensures !canUndo && undoPrevious == [] && previousWordMatches == 0 && previousMatchOffset == 0
    {
      canUndo, undoPrevious, previousWordMatches, previousMatchOffset := false, [], 0, 0;
    }
  }

  /**
   * Whether or not the change removed the word from the queue, putting it
   * back in front when it is missing gives the queue as it was before the
   * change.
   */
  lemma {:induction false} UndoRestoresQueue(keys: seq<string>, saved: seq<string>)
    requires saved != [] && QueueOk(saved)
    requires keys == saved || keys == saved[1..]
    ensures (if saved[0] in keys then keys else [saved[0]] + keys) == saved
  {
    if keys == saved[1..] {
      QueueParts(saved);
      assert [saved[0]] + saved[1..] == saved;
    }
  }

  /** In a queue without repeats the head does not occur again. */
  lemma {:induction false} HeadNotInTail(keys: seq<string>)
    requires keys != [] && Distinct(keys)
    ensures keys[0] !in keys[1..]
  {
    forall j | 0 <= j < |keys[1..]| ensures keys[1..][j] != keys[0] {
      assert keys[1..][j] == keys[j + 1];
    }
  }
}
