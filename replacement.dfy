/**
 * The text rewrite of `_makeChange`: `text.replace` with the global pattern
 * built from the word under review, whose callback numbers every literal match
 * from 1 and substitutes the new word for the one numbered `matchOffset`, or
 * for all of them. The callback does not apply the word-boundary test, so the
 * numbering is over raw matches, unlike the count and the context.
 */
module Replacement {
  import opened Scanner

  /**
   * The rest of the rewritten text from position `p` on, when `m` matches
   * have been numbered before `p`.
   */
  function ReplaceFrom(text: string, word: string, repl: string, all: bool, target: nat, p: nat, m: nat): string
    requires |word| > 0 && p <= |text|
    decreases |text| - p
  {
    if p + |word| > |text| then text[p..]
    else if text[p..p + |word|] == word then
      (if all || target == m + 1 then repl else word) + ReplaceFrom(text, word, repl, all, target, p + |word|, m + 1)
    else [text[p]] + ReplaceFrom(text, word, repl, all, target, p + 1, m)
  }

  /** The text `_makeChange` stores: every raw match, or the `target`-th, becomes `repl`. */
  function Replaced(text: string, word: string, repl: string, all: bool, target: nat): string
    requires |word| > 0
  {
    ReplaceFrom(text, word, repl, all, target, 0, 0)
  }

  /** The replace call with its counting callback, as one pass over the text. */
  method ReplaceMatches(text: string, word: string, repl: string, all: bool, target: nat) returns (r: string)
    requires |word| > 0
    ensures r == Replaced(text, word, repl, all, target)
  {
    hide ReplaceFrom;
    var p, m := 0, 0;
    r := [];
    while p + |word| <= |text|
      invariant p <= |text|
      invariant r + ReplaceFrom(text, word, repl, all, target, p, m) == Replaced(text, word, repl, all, target)
      decreases |text| - p
    {
      ReplaceFromStep(text, word, repl, all, target, p, m);
      if text[p..p + |word|] == word {
        var piece := if all || target == m + 1 then repl else word;
        AppendAssoc(r, piece, ReplaceFrom(text, word, repl, all, target, p + |word|, m + 1));
        r := r + piece;
        p, m := p + |word|, m + 1;
      } else {
        AppendAssoc(r, [text[p]], ReplaceFrom(text, word, repl, all, target, p + 1, m));
        r := r + [text[p]];
        p := p + 1;
      }
    }
    ReplaceFromDone(text, word, repl, all, target, p, m);
    r := r + text[p..];
  }

  /** Once the rest of the text is shorter than the word, it is copied unchanged. */
  lemma {:induction false} ReplaceFromDone(text: string, word: string, repl: string, all: bool, target: nat, p: nat, m: nat)
    requires |word| > 0 && p <= |text| < p + |word|
    ensures ReplaceFrom(text, word, repl, all, target, p, m) == text[p..]
  {
  }

  lemma AppendAssoc(a: string, b: string, c: string)
    ensures a + (b + c) == (a + b) + c
  {
  }

  /** One step of the callback: a match is numbered and replaced or kept; any other character is copied. */
  lemma {:induction false} ReplaceFromStep(text: string, word: string, repl: string, all: bool, target: nat, p: nat, m: nat)
    requires |word| > 0 && p + |word| <= |text|
    ensures ReplaceFrom(text, word, repl, all, target, p, m) ==
      if MatchAt(text, word, p) then
        (if all || target == m + 1 then repl else word) + ReplaceFrom(text, word, repl, all, target, p + |word|, m + 1)
      else [text[p]] + ReplaceFrom(text, word, repl, all, target, p + 1, m)
  {
  }

  /** Once the target has been passed, the rest of the text is copied unchanged. */
  lemma {:induction false} ReplaceFromNoneLeft(text: string, word: string, repl: string, target: nat, p: nat, m: nat)
    requires |word| > 0 && p <= |text| && target <= m
    ensures ReplaceFrom(text, word, repl, false, target, p, m) == text[p..]
    decreases |text| - p
  {
    if p + |word| <= |text| {
      if text[p..p + |word|] == word {
        ReplaceFromNoneLeft(text, word, repl, target, p + |word|, m + 1);
        assert text[p..] == text[p..p + |word|] + text[p + |word|..];
      } else {
        ReplaceFromNoneLeft(text, word, repl, target, p + 1, m);
        assert text[p..] == [text[p]] + text[p + 1..];
      }
    }
  }

  lemma {:induction false} SliceSplit(s: string, a: nat, b: nat, c: nat)
    requires a <= b <= c <= |s|
    ensures s[a..c] == s[a..b] + s[b..c]
  {
  }

  /** The text from `p` on with the `k`-th of the positions `ms` (counting from 1) holding `repl` instead of the word. */
  function SpliceOne(text: string, len: nat, repl: string, ms: seq<nat>, k: int, p: nat): string
    requires p <= |text|
    requires forall i :: 0 <= i < |ms| ==> p <= ms[i] && ms[i] + len <= |text|
  {
    if 1 <= k <= |ms| then text[p..ms[k - 1]] + repl + text[ms[k - 1] + len..] else text[p..]
  }

  /** The induction step of `ReplaceFromSingle` at the match to replace. */
  lemma {:induction false} SingleAtTarget(text: string, word: string, repl: string, target: nat, p: nat, m: nat)
    requires |word| > 0 && p + |word| <= |text| && MatchAt(text, word, p) && target == m + 1
    ensures ReplaceFrom(text, word, repl, false, target, p, m)
      == SpliceOne(text, |word|, repl, RawMatchesFrom(text, word, p), target - m, p)
  {
    hide ReplaceFrom, RawMatchesFrom;
    var ms := RawMatchesFrom(text, word, p);
    assert ms[0] == p by {
      RawMatchesStep(text, word, p);
    }
    assert ReplaceFrom(text, word, repl, false, target, p, m) == repl + text[p + |word|..] by {
      ReplaceFromStep(text, word, repl, false, target, p, m);
      ReplaceFromNoneLeft(text, word, repl, target, p + |word|, m + 1);
    }
    assert text[p..p] == [];
  }

  /** The induction step of `ReplaceFromSingle` at a match before the one to replace. */
  lemma {:induction false} SingleBeforeTarget(text: string, word: string, repl: string, target: nat, p: nat, m: nat)
    requires |word| > 0 && p + |word| <= |text| && MatchAt(text, word, p) && target > m + 1
    requires ReplaceFrom(text, word, repl, false, target, p + |word|, m + 1)
      == SpliceOne(text, |word|, repl, RawMatchesFrom(text, word, p + |word|), target - m - 1, p + |word|)
    ensures ReplaceFrom(text, word, repl, false, target, p, m)
      == SpliceOne(text, |word|, repl, RawMatchesFrom(text, word, p), target - m, p)
  {
    hide ReplaceFrom, RawMatchesFrom;
    var ms := RawMatchesFrom(text, word, p);
    var rest := RawMatchesFrom(text, word, p + |word|);
    var k := target - m;
    assert ms == [p] + rest by {
      RawMatchesStep(text, word, p);
    }
    var tail := SpliceOne(text, |word|, repl, rest, k - 1, p + |word|);
    assert ReplaceFrom(text, word, repl, false, target, p, m) == word + tail by {
      ReplaceFromStep(text, word, repl, false, target, p, m);
    }
    assert text[p..p + |word|] == word;
    if k <= |ms| {
      var q := ms[k - 1];
      assert q == rest[k - 2];
      var mid, after := text[p + |word|..q], text[q + |word|..];
      assert tail == mid + repl + after;
      assert text[p..q] == word + mid by {
        SliceSplit(text, p, p + |word|, q);
      }
      assert SpliceOne(text, |word|, repl, ms, k, p) == (word + mid) + repl + after;
      hide SpliceOne;
      AppendAssoc(word, mid, repl);
      AppendAssoc(word, mid + repl, after);
    } else {
      assert tail == text[p + |word|..];
      assert text[p..] == word + text[p + |word|..] by {
        SliceSplit(text, p, p + |word|, |text|);
      }
    }
  }

  /** The induction step of `ReplaceFromSingle` where no match starts. */
  lemma {:induction false} SingleAtOther(text: string, word: string, repl: string, target: nat, p: nat, m: nat)
    requires |word| > 0 && p + |word| <= |text| && !MatchAt(text, word, p)
    requires ReplaceFrom(text, word, repl, false, target, p + 1, m)
      == SpliceOne(text, |word|, repl, RawMatchesFrom(text, word, p + 1), target - m, p + 1)
    ensures ReplaceFrom(text, word, repl, false, target, p, m)
      == SpliceOne(text, |word|, repl, RawMatchesFrom(text, word, p), target - m, p)
  {
    hide ReplaceFrom, RawMatchesFrom;
    var ms := RawMatchesFrom(text, word, p);
    var k := target - m;
    assert ms == RawMatchesFrom(text, word, p + 1) by {
      RawMatchesStep(text, word, p);
    }
    var tail := SpliceOne(text, |word|, repl, ms, k, p + 1);
    assert ReplaceFrom(text, word, repl, false, target, p, m) == [text[p]] + tail by {
      ReplaceFromStep(text, word, repl, false, target, p, m);
    }
    if 1 <= k <= |ms| {
      SliceSplit(text, p, p + 1, ms[k - 1]);
    } else {
      SliceSplit(text, p, p + 1, |text|);
    }
  }

  lemma {:induction false} ReplaceFromSingle(text: string, word: string, repl: string, target: nat, p: nat, m: nat)
    requires |word| > 0 && p <= |text|
    ensures ReplaceFrom(text, word, repl, false, target, p, m)
      == SpliceOne(text, |word|, repl, RawMatchesFrom(text, word, p), target - m, p)
    decreases |text| - p
  {
    hide ReplaceFrom, RawMatchesFrom;
    if target <= m {
      ReplaceFromNoneLeft(text, word, repl, target, p, m);
    } else if p + |word| > |text| {
      ReplaceFromDone(text, word, repl, false, target, p, m);
      RawMatchesDone(text, word, p);
    } else {
      if MatchAt(text, word, p) {
        if target == m + 1 {
          SingleAtTarget(text, word, repl, target, p, m);
        } else {
          ReplaceFromSingle(text, word, repl, target, p + |word|, m + 1);
          SingleBeforeTarget(text, word, repl, target, p, m);
        }
      } else {
        ReplaceFromSingle(text, word, repl, target, p + 1, m);
        SingleAtOther(text, word, repl, target, p, m);
      }
    }
  }

  /**
   * Change of one occurrence: the `target`-th raw match (counted without the
   * word-boundary test) is replaced and every other character is kept; when
   * there is no such match the text is unchanged.
   */
  lemma {:induction false} ReplaceOne(text: string, word: string, repl: string, target: nat)
    requires |word| > 0
    ensures var ms := RawMatches(text, word);
      Replaced(text, word, repl, false, target) ==
        if 1 <= target <= |ms| then
          text[..ms[target - 1]] + repl + text[ms[target - 1] + |word|..]
        else text
  {
    ReplaceFromSingle(text, word, repl, target, 0, 0);
    assert text[0..] == text;
    assert target - 0 == target;
    var ms := RawMatches(text, word);
    if 1 <= target <= |ms| {
      assert text[0..ms[target - 1]] == text[..ms[target - 1]];
    }
  }

  /** Each position in `ms` leaves room for a `len`-character match between `from` and `n`, in order and without overlap. */
  predicate Spaced(ms: seq<nat>, len: nat, from: nat, n: nat) {
    && (forall i :: 0 <= i < |ms| ==> from <= ms[i] && ms[i] + len <= n)
    && Apart(ms, len)
  }

  /** After the first position, the others are spaced from the end of its match on. */
  lemma {:induction false} SpacedTail(ms: seq<nat>, len: nat, from: nat, n: nat)
    requires Spaced(ms, len, from, n) && ms != []
    ensures from <= ms[0] && ms[0] + len <= n && Spaced(ms[1..], len, ms[0] + len, n)
  {
  }

  /** The text with each of the positions in `ms` holding `repl` in place of a `len`-character match, copied from `from` on. */
  function Splice(text: string, ms: seq<nat>, len: nat, repl: string, from: nat): string
    requires from <= |text| && Spaced(ms, len, from, |text|)
    decreases |ms|
  {
    if ms == [] then text[from..]
    else
      SpacedTail(ms, len, from, |text|);
      text[from..ms[0]] + repl + Splice(text, ms[1..], len, repl, ms[0] + len)
  }

  /** One step of the splice: copy up to the first position, put `repl` there, go on after the match. */
  lemma {:induction false} SpliceUnfold(text: string, ms: seq<nat>, len: nat, repl: string, from: nat)
    requires from <= |text| && ms != [] && Spaced(ms, len, from, |text|)
    ensures from <= ms[0] && ms[0] + len <= |text| && Spaced(ms[1..], len, ms[0] + len, |text|)
    ensures Splice(text, ms, len, repl, from) == text[from..ms[0]] + repl + Splice(text, ms[1..], len, repl, ms[0] + len)
  {
    SpacedTail(ms, len, from, |text|);
  }

  /** The first spliced position is the one copying starts at. */
  lemma {:induction false} SpliceTake(text: string, ms: seq<nat>, len: nat, repl: string, from: nat)
    requires from <= |text| && ms != [] && ms[0] == from && Spaced(ms, len, from, |text|)
    ensures Spaced(ms[1..], len, from + len, |text|)
    ensures Splice(text, ms, len, repl, from) == repl + Splice(text, ms[1..], len, repl, from + len)
  {
    SpliceUnfold(text, ms, len, repl, from);
    hide Splice, Spaced;
    assert text[from..ms[0]] == [];
  }

  /** A character before every spliced position is copied. */
  lemma {:induction false} SpliceSkip(text: string, ms: seq<nat>, len: nat, repl: string, from: nat)
    requires from < |text| && Spaced(ms, len, from + 1, |text|)
    ensures Spaced(ms, len, from, |text|)
    ensures Splice(text, ms, len, repl, from) == [text[from]] + Splice(text, ms, len, repl, from + 1)
  {
    assert Spaced(ms, len, from, |text|);
    if ms == [] {
      SliceSplit(text, from, from + 1, |text|);
    } else {
      SpliceUnfold(text, ms, len, repl, from);
      SpliceUnfold(text, ms, len, repl, from + 1);
      hide Splice, Spaced;
      var rest := Splice(text, ms[1..], len, repl, ms[0] + len);
      SliceSplit(text, from, from + 1, ms[0]);
      assert text[from..from + 1] == [text[from]];
      AppendAssoc([text[from]], text[from + 1..ms[0]], repl);
      AppendAssoc([text[from]], text[from + 1..ms[0]] + repl, rest);
    }
  }

  /** The raw matches from `p` on are spaced as a splice needs them. */
  lemma {:induction false} RawMatchesSpaced(text: string, word: string, p: nat)
    requires |word| > 0 && p <= |text|
    ensures Spaced(RawMatchesFrom(text, word, p), |word|, p, |text|)
  {
  }

  lemma {:induction false} ReplaceFromAll(text: string, word: string, repl: string, target: nat, p: nat, m: nat)
    requires |word| > 0 && p <= |text|
    ensures ReplaceFrom(text, word, repl, true, target, p, m)
      == Splice(text, RawMatchesFrom(text, word, p), |word|, repl, p)
    decreases |text| - p
  {
    hide ReplaceFrom, RawMatchesFrom;
    var ms := RawMatchesFrom(text, word, p);
    RawMatchesSpaced(text, word, p);
    if p + |word| > |text| {
      ReplaceFromDone(text, word, repl, true, target, p, m);
      RawMatchesDone(text, word, p);
    } else if MatchAt(text, word, p) {
      var rest := RawMatchesFrom(text, word, p + |word|);
      assert ms == [p] + rest by {
        RawMatchesStep(text, word, p);
      }
      assert ms[1..] == rest;
      ReplaceFromAll(text, word, repl, target, p + |word|, m + 1);
      ReplaceFromStep(text, word, repl, true, target, p, m);
      SpliceTake(text, ms, |word|, repl, p);
    } else {
      assert ms == RawMatchesFrom(text, word, p + 1) by {
        RawMatchesStep(text, word, p);
      }
      RawMatchesSpaced(text, word, p + 1);
      ReplaceFromAll(text, word, repl, target, p + 1, m);
      ReplaceFromStep(text, word, repl, true, target, p, m);
      SpliceSkip(text, ms, |word|, repl, p);
    }
  }

  /**
   * Change of all occurrences: every raw match, including one followed by a
   * word character, is replaced, and the text between matches is kept.
   */
  lemma {:induction false} ReplaceAll(text: string, word: string, repl: string, target: nat)
    requires |word| > 0
    ensures Replaced(text, word, repl, true, target) == Splice(text, RawMatches(text, word), |word|, repl, 0)
  {
    ReplaceFromAll(text, word, repl, target, 0, 0);
  }

  lemma {:induction false} ReplaceFromSelf(text: string, word: string, all: bool, target: nat, p: nat, m: nat)
    requires |word| > 0 && p <= |text|
    ensures ReplaceFrom(text, word, word, all, target, p, m) == text[p..]
    decreases |text| - p
  {
    if p + |word| <= |text| {
      if text[p..p + |word|] == word {
        ReplaceFromSelf(text, word, all, target, p + |word|, m + 1);
        assert text[p..] == text[p..p + |word|] + text[p + |word|..];
      } else {
        ReplaceFromSelf(text, word, all, target, p + 1, m);
        assert text[p..] == [text[p]] + text[p + 1..];
      }
    }
  }

  /** Changing the word to itself leaves the text as it was. */
  lemma {:induction false} ReplaceWithSelf(text: string, word: string, all: bool, target: nat)
    requires |word| > 0
    ensures Replaced(text, word, word, all, target) == text
  {
    ReplaceFromSelf(text, word, all, target, 0, 0);
    assert text[0..] == text;
  }

  /**
   * Changing the first "pre" in "previous pre" to "post" rewrites the prefix of
   * "previous", although the reviewer was showing the standalone "pre".
   */
  lemma ChangeHitsPrefix()
    ensures Replaced("previous pre", "pre", "post", false, 1) == "postvious pre"
  {
    var t := "previous pre";
    PrefixMatches();
    ReplaceOne(t, "pre", "post", 1);
    hide Replaced, RawMatches, RawMatchesFrom;
    assert t[..0] + "post" + t[3..] == "postvious pre";
  }

  /** The first change of the review of "Helo wrold": its one "Helo" becomes "Hello". */
  lemma HeloFirstChange()
    ensures Replaced("Helo wrold", "Helo", "Hello", false, 1) == "Hello wrold"
  {
    var t := "Helo wrold";
    HeloOccurrences();
    ReplaceOne(t, "Helo", "Hello", 1);
    hide Replaced, RawMatches, RawMatchesFrom, Occurrences;
    assert t[..0] + "Hello" + t[4..] == "Hello wrold";
  }

  /** The second change: the "wrold" at the end of the text becomes "world". */
  lemma HeloSecondChange()
    ensures Replaced("Hello wrold", "wrold", "world", false, 1) == "Hello world"
  {
    var t := "Hello wrold";
    WroldOccurrences();
    ReplaceOne(t, "wrold", "world", 1);
    hide Replaced, RawMatches, RawMatchesFrom, Occurrences;
    assert t[..6] + "world" + t[11..] == "Hello world";
  }
}
