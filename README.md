# Spell checker review session, modelled in Dafny

This project models the review engine of `sc.SpellChecker` in `spellcheck.js`
(Javascript/PHP Spell Checker 1.4). The engine works in four steps:

- The widget sends the text of a field to a checking service.
- It receives a map from each misspelled word to its suggestions.
- It walks the user through every occurrence of each word. The user can
  ignore an occurrence, ignore all of them, change one, change all of them,
  or undo the last change.
- It closes the dialog and clears its state.

Files:

- `wrappers.dfy`: `Option`.
- `js_objects.dfy` (module `JsObjects`): a JavaScript object as the ordered
  list of its own properties. Also `sc.objectKeys`, `sc.extendObj` and
  `sc.contains`.
- `js_text.dfy` (module `JsText`): the JavaScript `\s` class and
  `sc.trim`. Also the three-step trims that cut a broken word off the edge
  of a context window, and `sc.encodeHTML`.
- `scanner.dfy` (module `Scanner`): finds the word under review.
  - Raw matches are the matches of the global pattern built from the word:
    left to right, without overlap.
  - Occurrences are the raw matches not followed by a word character.
  - The occurrence count (`_getTotalWordMatches`) and the context of the
    occurrence under the cursor (`_setContextBox`).
  - The markup written to the context box.
- `replacement.dfy` (module `Replacement`): the replace callback of
  `_makeChange`. It counts raw matches, not occurrences.
- `session.dfy` (module `Session`): the class `SpellChecker`. Its fields are
  the widget's own. Its methods are `_openChecker`/`_sendData`,
  `_handleXHR`, `_begin`, `_reviewWord`, `_setSuggestionOptions`,
  `_setContextBox`, `_ignoreChange`, `_makeChange`, the undo button with its
  `canUndo` guard, `_undoChange` and `_closeChecker`.
- `scenarios.dfy` (module `Scenarios`): sessions driven through those
  methods. They cover:
  - change then undo;
  - ignore then undo;
  - closing twice;
  - the review of "Helo wrold", by ignoring and by changing.

The session is a class whose methods update its fields in place. Each method
states its whole new state. The class invariant `Valid` holds:

- the queue of words has no repeats and no empty word;
- the word under review heads the queue, and its count is the count in the
  current text;
- the undo snapshot is exactly what an undo needs to restore the queue;
- a closed widget has no queue and no undo.

`_closeChecker` stores `null` in the fields. The model stores the empty
value of each type instead: `[]`, `0`, `false`, `Hidden` or `None`.

Behaviour of the code that the model keeps as written:

- **Replacement skips the boundary filter.** The reviewer counts only
  occurrences followed by a non-word character. `_makeChange` counts every
  raw match. A single change can therefore rewrite a prefix inside a longer
  word: `Replacement.ChangeHitsPrefix` shows that changing the first "pre"
  in "previous pre" gives "postvious pre". The cursor numbers occurrences
  but the change numbers raw matches, so they can point at different
  places: in "abc ab ab" with the word "ab", cursor 1 reviews the "ab" at
  position 4, while changing it rewrites the "ab" of "abc".
- **The boundary rule only looks right.** It tests the character after a
  match, never the one before. "wrold" is an occurrence in "awrold"
  (`Scanner.LeftBoundaryIgnored`).
- **The context drops an edge word.** The 50-character window after the
  word is cut back to its last whole word even when it ends at the end of
  the text. For "Helo wrold" the context after "Helo" is therefore empty,
  not " wrold" (`Scanner.HeloContext`).
- **Completion does not close the session.** The "completed" message
  appears, the dialog stays open, and the last change can still be undone
  (`Scenarios.HeloChangeSession`, `Scenarios.UndoAfterCompletion`).
- **An answer without `success` is ignored.** It leaves "Checking..." in
  place rather than giving the error message.
- **"No errors" and "error" messages leave the dialog open.**
- **Change does not advance the cursor.** After a change of one occurrence
  that does not resolve the word, the cursor keeps its number and the count
  is taken again in the new text. Ignore moves the cursor on by one.
- **The buttons still work after completion.** With the queue empty, an
  ignore that resolves drops nothing and shows "completed" again
  (`Scenarios.IgnoreAfterCompletion`).
- **Undo checks membership, not the head.** It puts the word back only
  when `sc.contains` does not find it anywhere in the queue.
- **Close keeps the backup text.** `_closeChecker` does not clear the
  hidden text area holding the text before the last change.

## Model

| member | source | states |
|---|---|---|
| JsObjects.ObjectKeys | spellcheck.js:42-52 | the keys are the object's own property names, one per property, in property order |
| JsObjects.KeysOfShape | spellcheck.js:42-52 | the key list has one entry per property and the i-th key is the i-th property's name |
| JsObjects.Get | spellcheck.js:79 | reading `o[k]`: the value of the first property named `k`, or none; specified by `GetFound`, `GetAt` and `KeysOfHasKey` |
| JsObjects.Put | spellcheck.js:79 | assigning `o[k] = v`; specified by `GetPut`, `KeysOfPut` and `PutWellFormed` |
| JsObjects.GetFound | spellcheck.js:79 | a value read from an object is the value of a property with that name |
| JsObjects.GetAt | spellcheck.js:79 | in an object without repeated names, reading a property's name gives that property's value |
| JsObjects.KeysOfHasKey | spellcheck.js:46-47 | a name is among the keys exactly when looking it up gives a value |
| JsObjects.GetPut | spellcheck.js:79 | after `first[prop] = v`, reading `prop` gives `v` and every other property reads as before |
| JsObjects.KeysOfPut | spellcheck.js:79 | assigning an existing property keeps the key order; a new property is added last |
| JsObjects.PutWellFormed | spellcheck.js:79 | assignment never creates a second property with the same name |
| JsObjects.ExtendObj | spellcheck.js:75-83 | every property of `second` is copied onto `first`, overriding it; properties only in `first` are kept; the result has no repeated names |
| JsObjects.Contains | spellcheck.js:85-95 | the backward scan returns true exactly when the item is in the array |
| JsText.LeadingRun | spellcheck.js:14-17 | the length of the leading run of white space (or of non-white space): every character in it has that kind and the next one has not |
| JsText.TrailingRun | spellcheck.js:14-17 | the same for the trailing run |
| JsText.Trim | spellcheck.js:97-100 | `sc.trim`: leading then trailing white space removed; specified by `TrimSpec` and `TrimIdempotent` |
| JsText.TrimSpec | spellcheck.js:97-100 | `sc.trim` returns a slice of its input that neither starts nor ends with white space, with only white space cut off on either side |
| JsText.TrimIdempotent | spellcheck.js:97-100 | trimming twice gives the same as trimming once |
| JsText.TrimCutStart | spellcheck.js:679-681 | the chain applied to the before-window; specified by `TrimCutStartSpec` |
| JsText.TrimCutEnd | spellcheck.js:683-685 | the chain applied to the after-window; specified by `TrimCutEndSpec` |
| JsText.TrimCutStartSplit | spellcheck.js:679-681 | the before-context is a suffix of the window after leading space, one whole word and more space; the word ends at white space or at the end of the window |
| JsText.TrimCutStartSpec | spellcheck.js:679-681 | the before-context is a suffix of the window that does not start with space; all-space windows give the empty string; otherwise exactly the first whole word and the space around it are removed, the word ending at white space or the window's end |
| JsText.CutAtStartUnique | spellcheck.js:679-681 | that description leaves no choice: only one suffix fits it |
| JsText.TrimCutEndSplit | spellcheck.js:683-685 | the after-context is a prefix of the window before more space, one whole word and trailing space; the word starts after white space or at the start of the window |
| JsText.TrimCutEndSpec | spellcheck.js:683-685 | the after-context is a prefix of the window that does not end with space, with exactly the last whole word and the space around it removed, the word starting after white space or at the window's start |
| JsText.CutAtEndUnique | spellcheck.js:683-685 | only one prefix fits that description |
| JsText.EncodeHTML | spellcheck.js:157-166 | `sc.encodeHTML` as the five chained global replaces; specified by the four lemmas below |
| JsText.EncodeHTMLAppend | spellcheck.js:157-166 | encoding distributes over concatenation |
| JsText.EncodeHTMLChar | spellcheck.js:157-166 | the five chained replaces encode each character on its own: `&`, `"`, `'`, `<`, `>` become their entities and everything else is kept |
| JsText.EncodeHTMLIsEscapeEach | spellcheck.js:157-166 | the chained replaces equal an independent character-by-character escape |
| JsText.EncodeHTMLSafe | spellcheck.js:157-166 | encoded text has no raw quote or angle bracket, and every `&` in it begins one of the five entities |
| Scanner.RawMatchesFrom | spellcheck.js:731 | every raw match is a literal occurrence of the word; the matches are in increasing order and do not overlap |
| Scanner.RawMatchesComplete | spellcheck.js:731 | no literal occurrence is missed: each is a match or lies inside an earlier match |
| Scanner.KeepBoundaryIn | spellcheck.js:731-735 | a position is kept exactly when it is a raw match not followed by a word character |
| Scanner.KeepBoundaryOrdered | spellcheck.js:731-735 | filtering keeps the matches in order and apart |
| Scanner.Occurrences | spellcheck.js:721-738 | the raw matches that pass the boundary test, in order; specified by `OccurrencesSpec` |
| Scanner.MatchCount | spellcheck.js:721-738 | `_getTotalWordMatches`: how many occurrences there are; computed by `CountMatches` |
| Scanner.OccurrencesSpec | spellcheck.js:721-738 | the occurrences are literal matches at a word boundary, in increasing order, and every raw match at a boundary is one of them |
| Scanner.CountMatches | spellcheck.js:721-738 | the loop counts exactly the occurrences |
| Scanner.BeforeWindow | spellcheck.js:662-669 | up to 20 characters ending right before the match: all of them when the match starts before position 20 |
| Scanner.AfterWindow | spellcheck.js:671-675 | up to 50 characters starting right after the match: the rest of the text when fewer than 50 remain |
| Scanner.ContextOf | spellcheck.js:660-685 | the context around the match at a position; specified by `ContextOfSpec` and `ContextFitsUnique` |
| Scanner.ContextAt | spellcheck.js:650-685 | the context of the cursor's occurrence, or none; specified by `ContextSpec` |
| Scanner.ContextOfSpec | spellcheck.js:660-685 | the context of a match is the word, with the whole first word of the before-window and the whole last word of the after-window cut, as `CutAtStart` and `CutAtEnd` describe |
| Scanner.ContextFitsUnique | spellcheck.js:660-685 | any context that fits that description is the one computed |
| Scanner.ContextSpec | spellcheck.js:650-695 | there is a context exactly for the cursors 1 to the count; it belongs to the cursor's occurrence, a boundary match, and has the whole edge words of both windows cut |
| Scanner.FindContext | spellcheck.js:638-695 | the walk over the matches finds the context of the cursor's occurrence, or none |
| Scanner.ContextHtml | spellcheck.js:687-691 | the markup of the context box: the encoded before-context, the encoded word in the highlight span, the encoded after-context; specified by `ContextHtmlTags` |
| Scanner.ContextHtmlTags | spellcheck.js:687-691 | the context box markup contains exactly two `<`, the opening and closing highlight tags around the encoded word, whatever the text |
| Scanner.PrefixMatches | spellcheck.js:531-537 | "pre" has raw matches at 0 and 9 in "previous pre" |
| Scanner.PrefixNotCounted | spellcheck.js:727-735 | only the second is an occurrence: the "pre" of "previous" is skipped |
| Scanner.HeloOccurrences | spellcheck.js:721-738 | "Helo" has one raw match and one occurrence in "Helo wrold", at 0 |
| Scanner.WroldOccurrences | spellcheck.js:721-738 | "wrold" has one raw match and one occurrence in "Hello wrold", at 6, which the end of the text bounds |
| Scanner.LeftBoundaryIgnored | spellcheck.js:731-735 | "wrold" is an occurrence inside "awrold": the character before a match is not tested |
| Scanner.EdgeWordDropped | spellcheck.js:683-685 | an after-window made of space followed by one word gives an empty after-context |
| Scanner.HeloBefore | spellcheck.js:665-666 | a match at the start of the text has an empty before-context |
| Scanner.HeloAfter | spellcheck.js:683-685 | the after-context of "Helo" in "Helo wrold" is empty |
| Scanner.HeloContext | spellcheck.js:650-695 | the context shown for "Helo" in "Helo wrold" is empty on both sides |
| Replacement.Replaced | spellcheck.js:531-537 | the text after `_makeChange`'s replace; specified by `ReplaceOne`, `ReplaceAll` and `ReplaceWithSelf` |
| Replacement.ReplaceMatches | spellcheck.js:531-537 | the replace with its counting callback computes `Replaced` |
| Replacement.ReplaceOne | spellcheck.js:531-537 | changing one occurrence replaces the target-th raw match and keeps every other character; with no such match the text is unchanged |
| Replacement.ReplaceFromSingle | spellcheck.js:531-537 | the same from any point of the scan, for the matches still to come |
| Replacement.ReplaceAll | spellcheck.js:531-537 | changing all occurrences replaces every raw match and keeps the text between them |
| Replacement.ReplaceFromAll | spellcheck.js:531-537 | the same from any point of the scan |
| Replacement.ReplaceFromSelf | spellcheck.js:531-537 | replacing matches by the word itself keeps the rest of the text from any point of the scan |
| Replacement.ReplaceWithSelf | spellcheck.js:531-537 | changing a word to itself leaves the text as it was |
| Replacement.RawMatchesSpaced | spellcheck.js:531-537 | the raw matches fit inside the text, in order and without overlap, which is what splicing them needs |
| Replacement.ChangeHitsPrefix | spellcheck.js:531-537 | changing the first "pre" of "previous pre" rewrites "previous" into "postvious" |
| Replacement.HeloFirstChange | spellcheck.js:531-537 | changing the one "Helo" of "Helo wrold" to "Hello" gives "Hello wrold" |
| Replacement.HeloSecondChange | spellcheck.js:531-537 | changing the one "wrold" of "Hello wrold" to "world" gives "Hello world" |
| Session.Resolves | spellcheck.js:470-472 | the test `_ignoreChange` and `_makeChange` (lines 540-542) share for dropping the word; used by `Ignore` and `Change` |
| Session.SuggestionsFor | spellcheck.js:611-633 | the options for a word; specified by `SuggestionsForSpec` |
| Session.SuggestionsForSpec | spellcheck.js:611-633 | the options for a word the server sent are the list under that word, the one such list when names do not repeat; a word the server did not send has none |
| Session.QueueParts | spellcheck.js:475 | dropping the head of a review queue leaves a review queue without that word |
| Session.ReviewableQueue | spellcheck.js:752-753 | the keys of an answer that starts a review form a non-empty review queue |
| Session.UndoRestoresQueue | spellcheck.js:584-586 | putting the word back unless the queue contains it gives the queue from before the change, whether or not the change dropped the word |
| Session.SpellChecker.constructor | spellcheck.js:273-280 | a new widget is closed, shows nothing, and has no queue and no undo |
| Session.SpellChecker.Open | spellcheck.js:363-383 | opening an open widget does nothing; otherwise the field's value becomes the text and undo is disabled; the status follows `_sendData`: an error without a transport, "no errors" below 2 characters, and "checking" with a request sent otherwise |
| Session.SpellChecker.HandleResponse | spellcheck.js:767-777 | a failed or undecodable answer shows the error message and changes nothing else; otherwise `_begin`'s outcome, field by field |
| Session.SpellChecker.Begin | spellcheck.js:743-762 | without `success` nothing changes; without errors "no errors" shows and nothing else changes; with errors the text is backed up, undo disabled, the queue becomes the answer's keys in order, the cursor 1, and the first word is reviewed, the saved word, count and cursor of the last change being kept |
| Session.SpellChecker.ReviewWord | spellcheck.js:704-716 | the head of the queue is under review, with its occurrence count in the current text, its suggestions and the context at the cursor |
| Session.SpellChecker.SetSuggestionOptions | spellcheck.js:611-633 | the suggestion box lists the suggestions for the word under review |
| Session.SpellChecker.SetContextBox | spellcheck.js:638-695 | the box shows the context of the cursor's occurrence and keeps its content when there is none |
| Session.SpellChecker.Ignore | spellcheck.js:464-495 | the word leaves the queue exactly when all are ignored, it has at most one occurrence, or the cursor is on the last; otherwise the cursor moves on by one; undo is disabled; the review continues or completes, leaving the widget open; after completion a resolving ignore drops nothing and completes again |
| Session.SpellChecker.Change | spellcheck.js:500-559 | the text, word, count and cursor are saved and undo enabled; the text becomes the replacement of the cursor's raw match, or of all; the queue follows the same rule as ignore, the cursor does not move; the review continues or completes |
| Session.SpellChecker.ReviewNextOrComplete | spellcheck.js:489-494 | the next word is reviewed while the queue is not empty; otherwise the status becomes "completed" and nothing else changes |
| Session.SpellChecker.DropWord | spellcheck.js:475-476 | the head leaves the queue, an empty queue staying empty as with `splice(0, 1)`, and the cursor goes back to 1 |
| Session.SpellChecker.SaveForUndo | spellcheck.js:516-523 | the text, word, count and cursor before the change are kept and undo is enabled |
| Session.SpellChecker.Undo | spellcheck.js:316-322 | without `canUndo` nothing changes; otherwise `_undoChange`'s outcome |
| Session.SpellChecker.UndoChange | spellcheck.js:564-606 | the saved text, word, count and cursor come back; the word returns to the front of the queue if missing, which restores the queue from before the change; the backup is emptied and undo disabled; the saved word, count and cursor stay |
| Session.SpellChecker.RestoreSaved | spellcheck.js:574-590 | the text, word, count and cursor become the saved ones |
| Session.SpellChecker.RestoreWord | spellcheck.js:584-586 | the word is put at the front of the queue exactly when the queue does not contain it |
| Session.SpellChecker.Close | spellcheck.js:388-418 | closing a closed widget does nothing; otherwise every session field is cleared and the widget is closed, except the backup text |
| Session.SpellChecker.ClearReview | spellcheck.js:398-409 | the word list, queue, word, count, cursor and review boxes are emptied |
| Session.SpellChecker.ClearUndo | spellcheck.js:410-413 | undo is disabled and the saved word, count and cursor are cleared |
| Scenarios.ChangeThenUndo | spellcheck.js:564-606 | a change followed by an undo gives back the text, queue, word, count and cursor; a second undo changes nothing |
| Scenarios.IgnoreThenUndo | spellcheck.js:486-487 | after an ignore, undo does nothing |
| Scenarios.CloseTwice | spellcheck.js:391-393 | closing twice gives the same closed, empty widget as closing once |
| Scenarios.HeloAnswerReviewable | spellcheck.js:752-753 | the answer for "Helo wrold" starts a review of "Helo" then "wrold", with "Hello" suggested first |
| Scenarios.HeloReview | spellcheck.js:743-762 | after opening on "Helo wrold" and the answer, "Helo" is under review with one occurrence, its suggestion and an empty context on both sides |
| Scenarios.HeloSession | spellcheck.js:489-494 | ignoring "Helo" and then all "wrold" completes the review with the widget still open |
| Scenarios.IgnoreAfterCompletion | spellcheck.js:470-493 | ignoring all after the review of "Helo wrold" completed leaves the queue empty and the text as it was, and shows "completed" again |
| Scenarios.HeloChangeSession | spellcheck.js:554-558 | changing "Helo" and then "wrold" gives "Hello world" and completes, with undo still available |
| Scenarios.UndoAfterCompletion | spellcheck.js:564-606 | undo after completion brings back "Hello wrold" and "wrold" under review, while the status stays "completed" |

## Left out

- The DOM: building the dialog (`_createHTML`), styles, `_showReviewer`, the
  message texts of `_notifyMsg` (modelled as the `Status` value), and the
  keyup handlers that copy between the word box and the context box.
- The choice of the replacement word: the selected suggestion or the word
  box's content. It is the `newWord` parameter of `Change`.
- Event wiring, `sc.addEvent`/`sc.removeEvent` and the Escape-key handler,
  which only calls `_closeChecker` (modelled as `Close`).
- The network: `sc.newXHR`, building the request (`sc.obj2string`,
  `encodeURIComponent`), and the asynchronous callback. Whether a transport
  exists is the `transportAvailable` parameter of `Open`. The HTTP status and
  the decoding are folded into the `Option<CheckResult>` of `HandleResponse`.
- `sc.parseJSON`: a decoded answer is given as a `CheckResult`, and `None`
  stands for a failed request or an undecodable body.
- `sc.getId` (random element identifiers) and `sc._` (element lookup).
- The regular-expression cache of `_getRegex`. The word is treated as a
  literal pattern.
- Scanner.RawMatchesFrom: matches the word literally. `new RegExp(word)` would
  give regular-expression metacharacters in a word their pattern meaning.
- JsObjects.ObjectKeys: keys come in insertion order. JavaScript lists
  integer-like property names first, in numeric order; that enumeration
  order is not modelled.
- Lengths and positions count Unicode characters. JavaScript's `length`
  and `substr` count UTF-16 code units, and a character outside the Basic
  Multilingual Plane takes two. The model therefore differs on such
  characters in three places:
  - the 20- and 50-unit context windows (lines 662-675), which in the
    source can split a surrogate pair;
  - the `length < 2` test of `_sendData` (line 795): a text of one such
    character is sent by the source, while the model reports "no errors";
  - the positions of matches.
- JsText.IsSpace: a fixed list of the characters the ECMAScript `\s` class
  matches: white space, line terminators and the Unicode space separators.
  It does not follow later Unicode versions.
- A response arriving after the widget was closed, and two requests in
  flight: the model handles one answer per open dialog.
- Session.SpellChecker.Undo: requires an open widget. Clicking undo after
  a close would read the cleared (`null`) fields and throw a TypeError.
- Session.SpellChecker.Ignore: requires a non-empty queue, or an open,
  completed session with an ignore that resolves. Before the first review
  and after a close the queue is `undefined` or `null`, and `splice`
  throws. After completion the queue is an empty array. There, an ignore
  that does not resolve calls `_reviewWord`, which reads an undefined word
  and throws at its `length` in `_getTotalWordMatches`. The model tells
  the empty array from the missing one by the `Completed` status.
- Session.SpellChecker.Change: requires a non-empty queue. After
  completion the source still runs a change that resolves (lines 515-558).
  It rewrites the text at the stale `_currentWord`, takes a new undo
  snapshot holding a count from an older text, and shows "completed" again.
  An undo after it would make that stale count the count under review.
  This breaks the invariant that the count is the count in the current
  text, so the model does not cover this path. A change that does not
  resolve throws in `_reviewWord`, as for ignore.
- Session.SpellChecker.Begin: requires that an answer with errors has at
  least one word and no empty word. With no words `_reviewWord` throws on
  an undefined word. An empty word builds a pattern matching everywhere,
  which the model does not cover.
- Session.SpellChecker.HandleResponse: requires the same of the answer
  as `Begin`.
- Session.SuggestionsFor: gives no options for a word without an entry,
  where `_setSuggestionOptions` would throw. The word under review always
  has an entry, so this does not arise.
- Session.SpellChecker.SetContextBox: the context box content is the
  `Context` value. `Scanner.ContextHtml` is the markup written into the box.
