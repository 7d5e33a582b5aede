/**
 * Finding the word under review in the text. `String.replace` with the global
 * pattern built from the word visits the literal matches left to right
 * without overlap; `_getTotalWordMatches` and `_setContextBox` then keep only
 * the matches not followed by a word character, so that "pre" inside
 * "previous" is skipped.
 */
module Scanner {
  import opened Wrappers
  import opened JsText

  /** The class `\w` of JavaScript regular expressions. */
  predicate IsWordChar(c: char) {
    ('a' <= c <= 'z') || ('A' <= c <= 'Z') || ('0' <= c <= '9') || c == '_'
  }

  /** The word occurs literally at position `p`. */
  predicate MatchAt(text: string, word: string, p: nat) {
    p + |word| <= |text| && text[p..p + |word|] == word
  }

  /**
   * The character after a match is not a word character. At the end of the
   * text `substr` gives the empty string, which the anchored `\w+` pattern
   * rejects, so a match there counts.
   */
  predicate AtBoundary(text: string, word: string, p: nat) {
    p + |word| >= |text| || !IsWordChar(text[p + |word|])
  }

  /** Positions of the matches of a global literal pattern, searched from `p` on. */
  function RawMatchesFrom(text: string, word: string, p: nat): (r: seq<nat>)
    requires |word| > 0 && p <= |text|
    ensures forall i :: 0 <= i < |r| ==> p <= r[i] && MatchAt(text, word, r[i])
    ensures forall i, j :: 0 <= i < j < |r| ==> r[i] + |word| <= r[j]
    decreases |text| - p
  {
    if p + |word| > |text| then []
    else if text[p..p + |word|] == word then [p] + RawMatchesFrom(text, word, p + |word|)
    else RawMatchesFrom(text, word, p + 1)
  }

  function RawMatches(text: string, word: string): seq<nat>
    requires |word| > 0
  {
    RawMatchesFrom(text, word, 0)
  }

  /** The matches in `ms` that are not followed by a word character. */
  function KeepBoundary(text: string, word: string, ms: seq<nat>): seq<nat> {
    if ms == [] then []
    else (if AtBoundary(text, word, ms[0]) then [ms[0]] else []) + KeepBoundary(text, word, ms[1..])
  }

  function BoundaryMatchesFrom(text: string, word: string, p: nat): seq<nat>
    requires |word| > 0 && p <= |text|
  {
    KeepBoundary(text, word, RawMatchesFrom(text, word, p))
  }

  /** The occurrences the reviewer steps through, in order. */
  function Occurrences(text: string, word: string): seq<nat>
    requires |word| > 0
  {
    BoundaryMatchesFrom(text, word, 0)
  }

  /** The value `_getTotalWordMatches` computes. */
  function MatchCount(text: string, word: string): nat
    requires |word| > 0
  {
    |Occurrences(text, word)|
  }

  /** Position `q` is one of the matches `r`, or lies inside one of them. */
  predicate Covered(r: seq<nat>, len: nat, q: nat) {
    q in r || exists i :: 0 <= i < |r| && r[i] < q < r[i] + len
  }

  lemma {:induction false} CoveredFirst(r: seq<nat>, len: nat, q: nat)
    requires r != [] && r[0] < q < r[0] + len
    ensures Covered(r, len, q)
  {
  }

  lemma {:induction false} CoveredCons(p: nat, r: seq<nat>, len: nat, q: nat)
    requires Covered(r, len, q)
    ensures Covered([p] + r, len, q)
  {
    var r2 := [p] + r;
    if q in r {
      assert q in r2;
    } else {
      var i :| 0 <= i < |r| && r[i] < q < r[i] + len;
      assert r2[i + 1] == r[i];
    }
  }

  /**
   * The search is greedy: every match from `p` on is either found or overlaps
   * a found one that starts before it.
   */
  lemma {:induction false} RawMatchesComplete(text: string, word: string, p: nat, q: nat)
    requires |word| > 0 && p <= q && MatchAt(text, word, q)
    ensures Covered(RawMatchesFrom(text, word, p), |word|, q)
    decreases |text| - p
  {
    if p == q {
      RawMatchesTake(text, word, p);
      assert q in RawMatchesFrom(text, word, p);
    } else {
      RawMatchesStep(text, word, p);
      hide RawMatchesFrom, Covered;
      var r := RawMatchesFrom(text, word, p);
      if MatchAt(text, word, p) {
        var r' := RawMatchesFrom(text, word, p + |word|);
        if p + |word| <= q {
          RawMatchesComplete(text, word, p + |word|, q);
          CoveredCons(p, r', |word|, q);
        } else {
          CoveredFirst(r, |word|, q);
        }
      } else {
        RawMatchesComplete(text, word, p + 1, q);
      }
    }
  }

  lemma {:induction false} KeepBoundaryIn(text: string, word: string, ms: seq<nat>, q: nat)
    ensures q in KeepBoundary(text, word, ms) <==> q in ms && AtBoundary(text, word, q)
  {
    if ms != [] {
      KeepBoundaryIn(text, word, ms[1..], q);
    }
  }

  /** Positions that are `len` or more apart, in increasing order. */
  predicate Apart(ms: seq<nat>, len: nat) {
    forall i, j :: 0 <= i < j < |ms| ==> ms[i] + len <= ms[j]
  }

  lemma {:induction false} ApartTail(ms: seq<nat>, len: nat)
    requires Apart(ms, len) && ms != []
    ensures Apart(ms[1..], len)
    ensures forall k :: 0 <= k < |ms[1..]| ==> ms[0] + len <= ms[1..][k]
  {
  }

  lemma {:induction false} ApartCons(x: nat, t: seq<nat>, len: nat)
    requires Apart(t, len) && forall k :: 0 <= k < |t| ==> x + len <= t[k]
    ensures Apart([x] + t, len)
  {
    var r := [x] + t;
    forall i, j | 0 <= i < j < |r| ensures r[i] + len <= r[j] {
      assert r[j] == t[j - 1];
      if i > 0 {
        assert r[i] == t[i - 1];
      }
    }
  }

  lemma {:induction false} KeepBoundaryOrdered(text: string, word: string, ms: seq<nat>)
    requires Apart(ms, |word|)
    ensures Apart(KeepBoundary(text, word, ms), |word|)
  {
    if ms != [] {
      ApartTail(ms, |word|);
      hide Apart;
      KeepBoundaryOrdered(text, word, ms[1..]);
      var t := KeepBoundary(text, word, ms[1..]);
      forall k | 0 <= k < |t| ensures ms[0] + |word| <= t[k] {
        KeepBoundaryIn(text, word, ms[1..], t[k]);
      }
      if AtBoundary(text, word, ms[0]) {
        assert KeepBoundary(text, word, ms) == [ms[0]] + t;
        ApartCons(ms[0], t, |word|);
      } else {
        assert KeepBoundary(text, word, ms) == t;
      }
    }
  }

  /**
   * What is counted: the literal matches found left to right without overlap
   * whose next character is not a word character, in increasing order.
   */
  lemma {:induction false} OccurrencesSpec(text: string, word: string)
    requires |word| > 0
    ensures var occ := Occurrences(text, word);
      && (forall q :: q in occ <==> q in RawMatches(text, word) && AtBoundary(text, word, q))
      && (forall i, j :: 0 <= i < j < |occ| ==> occ[i] + |word| <= occ[j])
      && (forall k :: 0 <= k < |occ| ==> MatchAt(text, word, occ[k]) && AtBoundary(text, word, occ[k]))
  {
    assert Occurrences(text, word) == KeepBoundary(text, word, RawMatches(text, word));
    forall q ensures q in Occurrences(text, word) <==> q in RawMatches(text, word) && AtBoundary(text, word, q) {
      KeepBoundaryIn(text, word, RawMatches(text, word), q);
    }
    KeepBoundaryOrdered(text, word, RawMatches(text, word));
    var occ := Occurrences(text, word);
    forall k | 0 <= k < |occ| ensures MatchAt(text, word, occ[k]) && AtBoundary(text, word, occ[k]) {
      assert occ[k] in occ;
    }
  }

  /** One step of the search: a match at `p` is visited and the search resumes after it; otherwise it resumes at `p + 1`. */
  lemma {:induction false} BoundaryMatchesStep(text: string, word: string, p: nat)
    requires |word| > 0 && p + |word| <= |text|
    ensures BoundaryMatchesFrom(text, word, p) ==
      if MatchAt(text, word, p) then
        (if AtBoundary(text, word, p) then [p] else []) + BoundaryMatchesFrom(text, word, p + |word|)
      else BoundaryMatchesFrom(text, word, p + 1)
  {
    var r := RawMatchesFrom(text, word, p);
    if MatchAt(text, word, p) {
      assert r == [p] + RawMatchesFrom(text, word, p + |word|);
      assert r[1..] == RawMatchesFrom(text, word, p + |word|);
    }
  }

  /** `_getTotalWordMatches`: one pass over the matches, counting those at a boundary. */
  method CountMatches(text: string, word: string) returns (matches: nat)
    requires |word| > 0
    ensures matches == MatchCount(text, word)
  {
    hide RawMatchesFrom, KeepBoundary;
    var p := 0;
    matches := 0;
    while p + |word| <= |text|
      invariant p <= |text|
      invariant matches + |BoundaryMatchesFrom(text, word, p)| == MatchCount(text, word)
      decreases |text| - p
    {
      BoundaryMatchesStep(text, word, p);
      if text[p..p + |word|] == word {
        if !(p + |word| < |text| && IsWordChar(text[p + |word|])) {
          matches := matches + 1;
        }
        p := p + |word|;
      } else {
        p := p + 1;
      }
    }
    BoundaryMatchesDone(text, word, p);
  }

  /** The search finds nothing once the rest of the text is shorter than the word. */
  lemma {:induction false} BoundaryMatchesDone(text: string, word: string, p: nat)
    requires |word| > 0 && p <= |text| < p + |word|
    ensures BoundaryMatchesFrom(text, word, p) == []
  {
  }

  /** What the context box shows: trimmed text before the match, the word, trimmed text after it. */
  datatype Context = Context(before: string, word: string, after: string)

  /** Up to 20 characters immediately before position `idx`. */
  function BeforeWindow(text: string, idx: nat): (b: string)
    requires idx <= |text|
    ensures |b| == (if idx < 20 then idx else 20) && b == text[idx - |b|..idx]
  {
    if idx < 20 then text[..idx] else text[idx - 20..idx]
  }

  /** Up to 50 characters from position `start` on. */
  function AfterWindow(text: string, start: nat): (a: string)
    requires start <= |text|
    ensures |a| == (if start + 50 > |text| then |text| - start else 50) && a == text[start..start + |a|]
  {
    if start + 50 > |text| then text[start..] else text[start..start + 50]
  }

  /** The context of the match at `idx`, cut back to whole words. */
  function ContextOf(text: string, word: string, idx: nat): Context
    requires idx + |word| <= |text|
  {
    Context(TrimCutStart(BeforeWindow(text, idx)), word, TrimCutEnd(AfterWindow(text, idx + |word|)))
  }

  /** The context of the `offset`-th occurrence (counting from 1); none when there is no such occurrence. */
  function ContextAt(text: string, word: string, offset: nat): Option<Context>
    requires |word| > 0
  {
    var occ := Occurrences(text, word);
    if 1 <= offset <= |occ| then
      OccurrencesSpec(text, word);
      Some(ContextOf(text, word, occ[offset - 1]))
    else None
  }

  /**
   * `c` is the context of the match at `idx`: the word itself, the 20-character
   * window before it cut back at the start and the 50-character window after
   * it cut back at the end.
   */
  predicate ContextFits(text: string, word: string, idx: nat, c: Context)
    requires idx + |word| <= |text|
  {
    && c.word == word
    && CutAtStart(BeforeWindow(text, idx), c.before)
    && CutAtEnd(AfterWindow(text, idx + |word|), c.after)
  }

  lemma {:induction false} ContextOfSpec(text: string, word: string, idx: nat)
    requires idx + |word| <= |text|
    ensures ContextFits(text, word, idx, ContextOf(text, word, idx))
  {
    TrimCutStartSpec(BeforeWindow(text, idx));
    TrimCutEndSpec(AfterWindow(text, idx + |word|));
  }

  /** `ContextFits` determines the context: the only one that fits is `ContextOf`. */
  lemma {:induction false} ContextFitsUnique(text: string, word: string, idx: nat, c: Context)
    requires idx + |word| <= |text| && ContextFits(text, word, idx, c)
    ensures c == ContextOf(text, word, idx)
  {
    ContextOfSpec(text, word, idx);
    var d := ContextOf(text, word, idx);
    CutAtStartUnique(BeforeWindow(text, idx), c.before, d.before);
    CutAtEndUnique(AfterWindow(text, idx + |word|), c.after, d.after);
  }

  /**
   * There is a context exactly for the offsets 1 to the match count, and it is
   * the context of the `offset`-th occurrence.
   */
  lemma {:induction false} ContextSpec(text: string, word: string, offset: nat)
    requires |word| > 0
    ensures ContextAt(text, word, offset).Some? <==> 1 <= offset <= MatchCount(text, word)
    ensures ContextAt(text, word, offset).Some? ==>
      var idx := Occurrences(text, word)[offset - 1];
      && MatchAt(text, word, idx) && AtBoundary(text, word, idx)
      && ContextFits(text, word, idx, ContextAt(text, word, offset).value)
  {
    var occ := Occurrences(text, word);
    if 1 <= offset <= |occ| {
      var idx := occ[offset - 1];
      assert MatchAt(text, word, idx) && AtBoundary(text, word, idx) by {
        OccurrencesSpec(text, word);
      }
      ContextOfSpec(text, word, idx);
    }
  }

  /** The markup around the word in the context box. */
  const HighlightOpen: string := "<span class=\"word-highlight\">"
  const HighlightClose: string := "</span>"

  /** What `_setContextBox` writes into the context box: each part encoded, the word highlighted. */
  function ContextHtml(c: Context): string {
    EncodeHTML(c.before) + HighlightOpen + EncodeHTML(c.word) + HighlightClose + EncodeHTML(c.after)
  }

  lemma {:induction false} NoTagIn(r: string, i: nat)
    requires HtmlSafe(r) && i < |r|
    ensures r[i] != '<'
  {
    assert SafeAt(r, i);
  }

  /**
   * Whatever the text holds, the context box gets exactly two tags: the
   * highlight span opens right after the encoded text before the word and
   * closes right after the encoded word.
   */
  lemma {:induction false} ContextHtmlTags(c: Context)
    ensures var h := ContextHtml(c);
      var o := |EncodeHTML(c.before)|;
      var e := o + |HighlightOpen| + |EncodeHTML(c.word)|;
      && e + |HighlightClose| <= |h|
      && h[o..o + |HighlightOpen|] == HighlightOpen
      && h[e..e + |HighlightClose|] == HighlightClose
      && forall i :: 0 <= i < |h| && h[i] == '<' ==> i == o || i == e
  {
    var a, b, d := EncodeHTML(c.before), EncodeHTML(c.word), EncodeHTML(c.after);
    EncodeHTMLSafe(c.before);
    EncodeHTMLSafe(c.word);
    EncodeHTMLSafe(c.after);
    var h := ContextHtml(c);
    hide EncodeHTML;
    assert h == a + HighlightOpen + b + HighlightClose + d;
    var o := |a|;
    var e := o + |HighlightOpen| + |b|;
    assert h[o..o + |HighlightOpen|] == HighlightOpen;
    assert h[e..e + |HighlightClose|] == HighlightClose;
    forall i | 0 <= i < |h| && h[i] == '<'
      ensures i == o || i == e
    {
      if i < o {
        assert h[i] == a[i];
        NoTagIn(a, i);
      } else if i < o + |HighlightOpen| {
        assert h[i] == HighlightOpen[i - o];
      } else if i < e {
        assert h[i] == b[i - o - |HighlightOpen|];
        NoTagIn(b, i - o - |HighlightOpen|);
      } else if i < e + |HighlightClose| {
        assert h[i] == HighlightClose[i - e];
      } else {
        assert h[i] == d[i - e - |HighlightClose|];
        NoTagIn(d, i - e - |HighlightClose|);
      }
    }
  }

  /**
   * `_setContextBox`: walks the matches, counting those at a boundary, and
   * takes the context of the one whose number is the cursor.
   */
  method FindContext(text: string, word: string, offset: nat) returns (c: Option<Context>)
    requires |word| > 0
    ensures c == ContextAt(text, word, offset)
  {
    hide ContextOf, RawMatchesFrom, KeepBoundary;
    var p := 0;
    var i := 0;
    c := None;
    ghost var seen: seq<nat> := [];
    ghost var occ := Occurrences(text, word);
    while p + |word| <= |text|
      invariant p <= |text|
      invariant occ == seen + BoundaryMatchesFrom(text, word, p)
      invariant forall k :: 0 <= k < |seen| ==> seen[k] + |word| <= |text|
      invariant i == |seen|
      invariant c == if 1 <= offset <= i then Some(ContextOf(text, word, seen[offset - 1])) else None
      decreases |text| - p
    {
      BoundaryMatchesStep(text, word, p);
      ghost var rest := BoundaryMatchesFrom(text, word, p);
      if text[p..p + |word|] == word {
        ghost var next := BoundaryMatchesFrom(text, word, p + |word|);
        if !(p + |word| < |text| && IsWordChar(text[p + |word|])) {
          SeenStep(occ, seen, rest, p, next);
          seen := seen + [p];
          i := i + 1;
          if i == offset {
            c := Some(ContextOf(text, word, p));
          }
        } else {
          assert rest == next;
        }
        p := p + |word|;
      } else {
        p := p + 1;
      }
    }
    BoundaryMatchesDone(text, word, p);
    assert occ == seen;
  }

  lemma {:induction false} SeenStep(occ: seq<nat>, seen: seq<nat>, rest: seq<nat>, p: nat, next: seq<nat>)
    requires occ == seen + rest && rest == [p] + next
    ensures occ == (seen + [p]) + next
  {
  }

  /** One step of the search: a match at `p` is taken and the search resumes after it; otherwise it resumes at `p + 1`. */
  lemma {:induction false} RawMatchesStep(text: string, word: string, p: nat)
    requires |word| > 0 && p + |word| <= |text|
    ensures RawMatchesFrom(text, word, p) ==
      if MatchAt(text, word, p) then [p] + RawMatchesFrom(text, word, p + |word|)
      else RawMatchesFrom(text, word, p + 1)
  {
  }

  /** The search finds nothing once the rest of the text is shorter than the word. */
  lemma {:induction false} RawMatchesDone(text: string, word: string, p: nat)
    requires |word| > 0 && p <= |text| < p + |word|
    ensures RawMatchesFrom(text, word, p) == []
  {
  }

  /** The search moves on by one character where the text cannot start a match. */
  lemma {:induction false} RawMatchesSkip(text: string, word: string, p: nat)
    requires |word| > 0 && p + |word| <= |text| && text[p] != word[0]
    ensures RawMatchesFrom(text, word, p) == RawMatchesFrom(text, word, p + 1)
  {
    assert text[p..p + |word|][0] == text[p];
  }

  /** The search takes a match where it finds one and resumes after it. */
  lemma {:induction false} RawMatchesTake(text: string, word: string, p: nat)
    requires |word| > 0 && MatchAt(text, word, p)
    ensures RawMatchesFrom(text, word, p) == [p] + RawMatchesFrom(text, word, p + |word|)
  {
  }

  /** The search finds "pre" twice in "previous pre": at the start of "previous" and on its own. */
  lemma PrefixMatches()
    ensures RawMatches("previous pre", "pre") == [0, 9]
  {
    var t, w := "previous pre", "pre";
    hide RawMatchesFrom;
    assert t[0..3] == w;
    RawMatchesTake(t, w, 0);
    RawMatchesSkip(t, w, 3);
    RawMatchesSkip(t, w, 4);
    RawMatchesSkip(t, w, 5);
    RawMatchesSkip(t, w, 6);
    RawMatchesSkip(t, w, 7);
    RawMatchesSkip(t, w, 8);
    assert t[9..12] == w;
    RawMatchesTake(t, w, 9);
    RawMatchesDone(t, w, 12);
  }

  /** "pre" occurs twice in "previous pre", but only the second occurrence counts. */
  lemma PrefixNotCounted()
    ensures RawMatches("previous pre", "pre") == [0, 9]
    ensures Occurrences("previous pre", "pre") == [9]
  {
    var t, w := "previous pre", "pre";
    PrefixMatches();
    hide RawMatchesFrom;
    assert IsWordChar(t[3]);
    assert KeepBoundary(t, w, [0, 9]) == KeepBoundary(t, w, [9]);
  }

  /** "Helo" occurs once in "Helo wrold", at the start. */
  lemma HeloOccurrences()
    ensures RawMatches("Helo wrold", "Helo") == [0]
    ensures Occurrences("Helo wrold", "Helo") == [0]
  {
    var t, w := "Helo wrold", "Helo";
    hide RawMatchesFrom;
    assert t[0..4] == w;
    RawMatchesTake(t, w, 0);
    RawMatchesSkip(t, w, 4);
    RawMatchesSkip(t, w, 5);
    RawMatchesSkip(t, w, 6);
    RawMatchesDone(t, w, 7);
    assert RawMatches(t, w) == [0];
    assert !IsWordChar(t[4]);
  }

  /** After "Hello", the one occurrence of "wrold" is at the end of the text. */
  lemma WroldOccurrences()
    ensures RawMatches("Hello wrold", "wrold") == [6]
    ensures Occurrences("Hello wrold", "wrold") == [6]
  {
    var t, w := "Hello wrold", "wrold";
    hide RawMatchesFrom;
    RawMatchesSkip(t, w, 0);
    RawMatchesSkip(t, w, 1);
    RawMatchesSkip(t, w, 2);
    RawMatchesSkip(t, w, 3);
    RawMatchesSkip(t, w, 4);
    RawMatchesSkip(t, w, 5);
    assert t[6..11] == w;
    RawMatchesTake(t, w, 6);
    RawMatchesDone(t, w, 11);
    assert RawMatches(t, w) == [6];
    assert AtBoundary(t, w, 6);
  }

  /**
   * Only the character after a match is tested: "wrold" inside "awrold" is
   * an occurrence, although it ends a longer word.
   */
  lemma LeftBoundaryIgnored()
    ensures Occurrences("awrold", "wrold") == [1]
  {
    var t, w := "awrold", "wrold";
    hide RawMatchesFrom;
    RawMatchesSkip(t, w, 0);
    assert t[1..6] == w;
    RawMatchesTake(t, w, 1);
    RawMatchesDone(t, w, 6);
    assert RawMatches(t, w) == [1];
    assert AtBoundary(t, w, 1);
  }

  /** A word character is never white space. */
  lemma WordCharNotSpace(c: char)
    requires IsWordChar(c)
    ensures !IsSpace(c)
  {
  }

  /**
   * A window after a match holding only a space and then part of a word is
   * cut back to nothing: the last word is dropped even when it is the only one.
   */
  lemma {:induction false} EdgeWordDropped(a: string)
    requires |a| >= 2 && IsSpace(a[0])
    requires forall i :: 1 <= i < |a| ==> !IsSpace(a[i])
    ensures TrimCutEnd(a) == []
  {
    assert TrailingRun(a, true) == 0;
    assert TrimEnd(a) == a;
    var n := TrailingRun(a, false);
    assert n == |a| - 1;
    assert RemoveLastWord(a) == a[..1];
    assert TrailingRun(a[..1], true) == 1;
  }

  /** Nothing precedes "Helo" in "Helo wrold". */
  lemma HeloBefore()
    ensures TrimCutStart(BeforeWindow("Helo wrold", 0)) == []
  {
    assert BeforeWindow("Helo wrold", 0) == [];
    assert TrimCutStart([]) == [];
  }

  /** The window after "Helo" in "Helo wrold" is cut back to nothing. */
  lemma HeloAfter()
    ensures TrimCutEnd(AfterWindow("Helo wrold", 4)) == []
  {
    var a := AfterWindow("Helo wrold", 4);
    assert |a| == 6 && a[0] == ' ';
    assert a[1] == 'w' && a[2] == 'r' && a[3] == 'o' && a[4] == 'l' && a[5] == 'd';
    WordCharNotSpace('w');
    WordCharNotSpace('r');
    WordCharNotSpace('o');
    WordCharNotSpace('l');
    WordCharNotSpace('d');
    EdgeWordDropped(a);
  }

  /**
   * In "Helo wrold" the context of "Helo" is empty on both sides: nothing
   * precedes it, and cutting the last word of " wrold" leaves only white space.
   */
  lemma HeloContext()
    ensures Occurrences("Helo wrold", "Helo") == [0]
    ensures ContextAt("Helo wrold", "Helo", 1) == Some(Context("", "Helo", ""))
  {
    var t, w := "Helo wrold", "Helo";
    HeloOccurrences();
    HeloAfter();
    HeloBefore();
    hide Occurrences, TrimCutEnd, TrimCutStart, BeforeWindow, AfterWindow;
    assert ContextOf(t, w, 0) == Context("", "Helo", "");
  }
}
