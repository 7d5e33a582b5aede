/**
 * The string helpers of the widget: `sc.trim`, `sc.encodeHTML`, and the
 * regular-expression replacements that `_setContextBox` chains to cut a
 * context window back to whole words. Each `String.replace` with one of the
 * module-level patterns of spellcheck.js is a function here.
 */
module JsText {

  /** The class `\s` of JavaScript regular expressions: white space and line terminators. */
  predicate IsSpace(c: char) {
    || c == ' ' || c == '\t' || c == '\n' || c == '\r'
    || c == '\U{000B}' || c == '\U{000C}' || c == '\U{00A0}' || c == '\U{1680}'
    || ('\U{2000}' <= c <= '\U{200A}')
    || c == '\U{2028}' || c == '\U{2029}' || c == '\U{202F}' || c == '\U{205F}'
    || c == '\U{3000}' || c == '\U{FEFF}'
  }

  predicate AllSpace(s: string) {
    forall i :: 0 <= i < |s| ==> IsSpace(s[i])
  }

  predicate NoSpace(s: string) {
    forall i :: 0 <= i < |s| ==> !IsSpace(s[i])
  }

  predicate HasNonSpace(s: string) {
    exists i :: 0 <= i < |s| && !IsSpace(s[i])
  }

  /**
   * Length of the longest prefix of `s` made only of white space (`space`)
   * or only of other characters (`!space`).
   */
  function LeadingRun(s: string, space: bool): (n: nat)
    ensures n <= |s|
    ensures forall i :: 0 <= i < n ==> IsSpace(s[i]) == space
    ensures n < |s| ==> IsSpace(s[n]) != space
  {
    if s != [] && IsSpace(s[0]) == space then 1 + LeadingRun(s[1..], space) else 0
  }

  /** Length of the longest suffix of `s` made only of white space (`space`) or only of other characters. */
  function TrailingRun(s: string, space: bool): (n: nat)
    ensures n <= |s|
    ensures forall i :: |s| - n <= i < |s| ==> IsSpace(s[i]) == space
    ensures n < |s| ==> IsSpace(s[|s| - 1 - n]) != space
  {
    if s != [] && IsSpace(s[|s| - 1]) == space then 1 + TrailingRun(s[..|s| - 1], space) else 0
  }

  /** `s.replace(/^\s+/, '')` */
  function TrimStart(s: string): string {
    s[LeadingRun(s, true)..]
  }

  /** `s.replace(/\s+$/, '')`: the leftmost match is the whole trailing white-space run. */
  function TrimEnd(s: string): string {
    s[..|s| - TrailingRun(s, true)]
  }

  /** `s.replace(/[^\s]+/, '')`: the pattern is not anchored, so the first non-white run is removed wherever it starts. */
  function RemoveFirstWord(s: string): string {
    var i := LeadingRun(s, true);
    s[..i] + s[i + LeadingRun(s[i..], false)..]
  }

  /** `s.replace(/[^\s]+$/, '')`: removes the non-white run that ends the string, if it ends with one. */
  function RemoveLastWord(s: string): string {
    s[..|s| - TrailingRun(s, false)]
  }

  /** `sc.trim` */
  function Trim(s: string): string {
    TrimEnd(TrimStart(s))
  }

  /** The chain `_setContextBox` applies to the text before a match. */
  function TrimCutStart(s: string): string {
    TrimStart(RemoveFirstWord(TrimStart(s)))
  }

  /** The chain `_setContextBox` applies to the text after a match. */
  function TrimCutEnd(s: string): string {
    TrimEnd(RemoveLastWord(TrimEnd(s)))
  }

  /** `sc.trim` leaves a stretch of its input with only white space cut off either side. */
  lemma {:induction false} TrimSpec(s: string)
    ensures var r := Trim(s);
      && (r == [] || (!IsSpace(r[0]) && !IsSpace(r[|r| - 1])))
      && exists i, j :: 0 <= i <= j <= |s| && r == s[i..j] && AllSpace(s[..i]) && AllSpace(s[j..])
  {
    var i := LeadingRun(s, true);
    var t := s[i..];
    var j := i + |t| - TrailingRun(t, true);
    assert Trim(s) == s[i..j];
    assert AllSpace(s[j..]) by {
      forall k | 0 <= k < |s[j..]| ensures IsSpace(s[j..][k]) {
        assert s[j..][k] == t[k + j - i];
      }
    }
  }

  /** Trimming twice is trimming once. */
  lemma {:induction false} TrimIdempotent(s: string)
    ensures Trim(Trim(s)) == Trim(s)
  {
    TrimSpec(s);
    var r := Trim(s);
    assert LeadingRun(r, true) == 0;
    assert TrailingRun(r, true) == 0;
  }

  predicate SpaceBetween(s: string, lo: nat, hi: nat)
    requires lo <= hi <= |s|
  {
    forall k :: lo <= k < hi ==> IsSpace(s[k])
  }

  predicate WordBetween(s: string, lo: nat, hi: nat)
    requires lo <= hi <= |s|
  {
    forall k :: lo <= k < hi ==> !IsSpace(s[k])
  }

  /**
   * `r` is what is left of `s` once white space, one whole non-empty word and
   * white space again are cut from its start: a suffix of `s` that does not
   * start with white space, empty when `s` is all white space. The word cut
   * ends at white space or at the end of `s`.
   */
  predicate CutAtStart(s: string, r: string) {
    && |r| <= |s| && r == s[|s| - |r|..]
    && (r == [] || !IsSpace(r[0]))
    && (!HasNonSpace(s) ==> r == [])
    && (HasNonSpace(s) ==>
          (exists i, j :: 0 <= i < j <= |s| - |r|
             && SpaceBetween(s, 0, i) && WordBetween(s, i, j) && SpaceBetween(s, j, |s| - |r|)
             && (j < |s| ==> IsSpace(s[j]))))
  }

  /** The mirror image of `CutAtStart`: a prefix of `s` without trailing white space, its whole last word cut. */
  predicate CutAtEnd(s: string, r: string) {
    && |r| <= |s| && r == s[..|r|]
    && (r == [] || !IsSpace(r[|r| - 1]))
    && (!HasNonSpace(s) ==> r == [])
    && (HasNonSpace(s) ==>
          (exists i, j :: |r| <= i < j <= |s|
             && SpaceBetween(s, |r|, i) && WordBetween(s, i, j) && SpaceBetween(s, j, |s|)
             && (0 < i ==> IsSpace(s[i - 1]))))
  }

  /** `CutAtStart` leaves no choice: at most one suffix fits it. */
  lemma {:induction false} CutAtStartUnique(s: string, r1: string, r2: string)
    requires CutAtStart(s, r1) && CutAtStart(s, r2)
    ensures r1 == r2
  {
    if HasNonSpace(s) {
      var i1, j1 :| 0 <= i1 < j1 <= |s| - |r1|
        && SpaceBetween(s, 0, i1) && WordBetween(s, i1, j1) && SpaceBetween(s, j1, |s| - |r1|)
        && (j1 < |s| ==> IsSpace(s[j1]));
      var i2, j2 :| 0 <= i2 < j2 <= |s| - |r2|
        && SpaceBetween(s, 0, i2) && WordBetween(s, i2, j2) && SpaceBetween(s, j2, |s| - |r2|)
        && (j2 < |s| ==> IsSpace(s[j2]));
      assert !IsSpace(s[i1]) && !IsSpace(s[i2]);
      assert i1 == i2;
      assert j1 == j2;
      assert |r1| == |r2|;
    }
  }

  /** `CutAtEnd` leaves no choice: at most one prefix fits it. */
  lemma {:induction false} CutAtEndUnique(s: string, r1: string, r2: string)
    requires CutAtEnd(s, r1) && CutAtEnd(s, r2)
    ensures r1 == r2
  {
    if HasNonSpace(s) {
      var i1, j1 :| |r1| <= i1 < j1 <= |s|
        && SpaceBetween(s, |r1|, i1) && WordBetween(s, i1, j1) && SpaceBetween(s, j1, |s|)
        && (0 < i1 ==> IsSpace(s[i1 - 1]));
      var i2, j2 :| |r2| <= i2 < j2 <= |s|
        && SpaceBetween(s, |r2|, i2) && WordBetween(s, i2, j2) && SpaceBetween(s, j2, |s|)
        && (0 < i2 ==> IsSpace(s[i2 - 1]));
      assert !IsSpace(s[j1 - 1]) && !IsSpace(s[j2 - 1]);
      assert j1 == j2;
      assert i1 == i2;
      assert |r1| == |r2|;
    }
  }

  /** The run of white space (`space`) or of other characters that starts at `lo` ends at `hi`. */
  lemma {:induction false} RunFrom(s: string, lo: nat, space: bool) returns (hi: nat)
    requires lo <= |s|
    ensures lo <= hi <= |s| && hi == lo + LeadingRun(s[lo..], space)
    ensures forall k :: lo <= k < hi ==> IsSpace(s[k]) == space
    ensures hi < |s| ==> IsSpace(s[hi]) != space
  {
    var t := s[lo..];
    hi := lo + LeadingRun(t, space);
    forall k | lo <= k < hi ensures IsSpace(s[k]) == space {
      assert s[k] == t[k - lo];
    }
    if hi < |s| {
      assert s[hi] == t[hi - lo];
    }
  }

  /** The run of white space (`space`) or of other characters that ends at `hi` starts at `lo`. */
  lemma {:induction false} RunUntil(s: string, hi: nat, space: bool) returns (lo: nat)
    requires hi <= |s|
    ensures lo <= hi && lo == hi - TrailingRun(s[..hi], space)
    ensures forall k :: lo <= k < hi ==> IsSpace(s[k]) == space
    ensures 0 < lo ==> IsSpace(s[lo - 1]) != space
  {
    var t := s[..hi];
    lo := hi - TrailingRun(t, space);
    forall k | lo <= k < hi ensures IsSpace(s[k]) == space {
      assert s[k] == t[k];
    }
    if 0 < lo {
      assert s[lo - 1] == t[lo - 1];
    }
  }

  lemma {:induction false} TrimStartFrom(s: string, lo: nat) returns (hi: nat)
    requires lo <= |s|
    ensures lo <= hi <= |s| && TrimStart(s[lo..]) == s[hi..]
    ensures SpaceBetween(s, lo, hi) && (hi < |s| ==> !IsSpace(s[hi]))
  {
    hi := RunFrom(s, lo, true);
    assert s[lo..][hi - lo..] == s[hi..];
  }

  lemma {:induction false} RemoveFirstWordFrom(s: string, lo: nat) returns (hi: nat)
    requires lo <= |s| && (lo < |s| ==> !IsSpace(s[lo]))
    ensures lo <= hi <= |s| && RemoveFirstWord(s[lo..]) == s[hi..]
    ensures WordBetween(s, lo, hi) && (lo < |s| ==> lo < hi)
    ensures hi < |s| ==> IsSpace(s[hi])
  {
    var t := s[lo..];
    assert LeadingRun(t, true) == 0 by {
      if t != [] { assert t[0] == s[lo]; }
    }
    assert t[0..] == t;
    hi := RunFrom(s, lo, false);
    assert t[hi - lo..] == s[hi..];
  }

  lemma {:induction false} TrimEndUntil(s: string, hi: nat) returns (lo: nat)
    requires hi <= |s|
    ensures lo <= hi && TrimEnd(s[..hi]) == s[..lo]
    ensures SpaceBetween(s, lo, hi) && (0 < lo ==> !IsSpace(s[lo - 1]))
  {
    lo := RunUntil(s, hi, true);
    assert s[..hi][..lo] == s[..lo];
  }

  lemma {:induction false} RemoveLastWordUntil(s: string, hi: nat) returns (lo: nat)
    requires hi <= |s| && (0 < hi ==> !IsSpace(s[hi - 1]))
    ensures lo <= hi && RemoveLastWord(s[..hi]) == s[..lo]
    ensures WordBetween(s, lo, hi) && (0 < hi ==> lo < hi)
    ensures 0 < lo ==> IsSpace(s[lo - 1])
  {
    lo := RunUntil(s, hi, false);
    assert s[..hi][..lo] == s[..lo];
  }

  /** The positions where the three cuts of `TrimCutStart` end. */
  lemma {:induction false} TrimCutStartSplit(s: string) returns (i: nat, j: nat, d: nat)
    ensures i <= j <= d <= |s| && TrimCutStart(s) == s[d..]
    ensures SpaceBetween(s, 0, i) && WordBetween(s, i, j) && SpaceBetween(s, j, d)
    ensures i < |s| ==> i < j && !IsSpace(s[i])
    ensures j < |s| ==> IsSpace(s[j])
    ensures d < |s| ==> !IsSpace(s[d])
  {
    assert s[0..] == s;
    i := TrimStartFrom(s, 0);
    j := RemoveFirstWordFrom(s, i);
    d := TrimStartFrom(s, j);
  }

  /**
   * The text before a match keeps a suffix of its window that does not start
   * with white space; what is dropped is white space, one non-empty word and
   * white space again, so the first word of the window is always lost.
   */
  lemma {:induction false} TrimCutStartSpec(s: string)
    ensures CutAtStart(s, TrimCutStart(s))
  {
    var i, j, d := TrimCutStartSplit(s);
    hide TrimCutStart, TrimStart, RemoveFirstWord, LeadingRun;
    var r := TrimCutStart(s);
    assert |s| - |r| == d;
    assert r == [] || r[0] == s[d];
    if HasNonSpace(s) {
      var k :| 0 <= k < |s| && !IsSpace(s[k]);
      assert i <= k;
    } else {
      assert i == |s|;
    }
  }

  /** The positions where the three cuts of `TrimCutEnd` begin. */
  lemma {:induction false} TrimCutEndSplit(s: string) returns (d: nat, i: nat, j: nat)
    ensures d <= i <= j <= |s| && TrimCutEnd(s) == s[..d]
    ensures SpaceBetween(s, d, i) && WordBetween(s, i, j) && SpaceBetween(s, j, |s|)
    ensures 0 < j ==> i < j && !IsSpace(s[j - 1])
    ensures 0 < i ==> IsSpace(s[i - 1])
    ensures 0 < d ==> !IsSpace(s[d - 1])
  {
    assert s[..|s|] == s;
    j := TrimEndUntil(s, |s|);
    i := RemoveLastWordUntil(s, j);
    d := TrimEndUntil(s, i);
  }

  /**
   * The text after a match keeps a prefix of its window that does not end with
   * white space; what is dropped is white space, one non-empty word and white
   * space again, so the last word of the window is always lost.
   */
  lemma {:induction false} TrimCutEndSpec(s: string)
    ensures CutAtEnd(s, TrimCutEnd(s))
  {
    var d, i, j := TrimCutEndSplit(s);
    hide TrimCutEnd, TrimEnd, RemoveLastWord, TrailingRun;
    var r := TrimCutEnd(s);
    assert |r| == d;
    assert r == [] || r[|r| - 1] == s[d - 1];
    if HasNonSpace(s) {
      var k :| 0 <= k < |s| && !IsSpace(s[k]);
      assert k < j;
    } else {
      assert j == 0;
    }
  }

  /** `s.replace(/c/g, rep)` for a one-character pattern `c`. */
  function ReplaceEach(s: string, c: char, rep: string): string {
    if s == [] then [] else (if s[0] == c then rep else [s[0]]) + ReplaceEach(s[1..], c, rep)
  }

  /** `sc.encodeHTML`: `&` first, then the two quotes and the two angle brackets. */
  function EncodeHTML(s: string): string {
    ReplaceEach(ReplaceEach(ReplaceEach(ReplaceEach(ReplaceEach(
      s, '&', "&amp;"), '"', "&quot;"), '\'', "&#39;"), '<', "&lt;"), '>', "&gt;")
  }

  /** The entity each character stands for after encoding. */
  function Escape(c: char): string {
    if c == '&' then "&amp;"
    else if c == '"' then "&quot;"
    else if c == '\'' then "&#39;"
    else if c == '<' then "&lt;"
    else if c == '>' then "&gt;"
    else [c]
  }

  /** A character-by-character reference for `EncodeHTML`. */
  function EscapeEach(s: string): string {
    if s == [] then [] else Escape(s[0]) + EscapeEach(s[1..])
  }

  lemma {:induction false} ReplaceEachAppend(a: string, b: string, c: char, rep: string)
    ensures ReplaceEach(a + b, c, rep) == ReplaceEach(a, c, rep) + ReplaceEach(b, c, rep)
  {
    if a == [] {
      assert a + b == b;
    } else {
      assert (a + b)[0] == a[0];
      assert (a + b)[1..] == a[1..] + b;
      ReplaceEachAppend(a[1..], b, c, rep);
    }
  }

  lemma {:induction false} ReplaceEachAbsent(s: string, c: char, rep: string)
    requires c !in s
    ensures ReplaceEach(s, c, rep) == s
  {
    if s != [] {
      ReplaceEachAbsent(s[1..], c, rep);
    }
  }

  lemma {:induction false} ReplaceEachOne(x: char, c: char, rep: string)
    ensures ReplaceEach([x], c, rep) == if x == c then rep else [x]
  {
    assert [x][1..] == [];
  }

  lemma {:induction false} EncodeHTMLAppend(a: string, b: string)
    ensures EncodeHTML(a + b) == EncodeHTML(a) + EncodeHTML(b)
  {
    var a1, b1 := ReplaceEach(a, '&', "&amp;"), ReplaceEach(b, '&', "&amp;");
    ReplaceEachAppend(a, b, '&', "&amp;");
    var a2, b2 := ReplaceEach(a1, '"', "&quot;"), ReplaceEach(b1, '"', "&quot;");
    ReplaceEachAppend(a1, b1, '"', "&quot;");
    var a3, b3 := ReplaceEach(a2, '\'', "&#39;"), ReplaceEach(b2, '\'', "&#39;");
    ReplaceEachAppend(a2, b2, '\'', "&#39;");
    var a4, b4 := ReplaceEach(a3, '<', "&lt;"), ReplaceEach(b3, '<', "&lt;");
    ReplaceEachAppend(a3, b3, '<', "&lt;");
    ReplaceEachAppend(a4, b4, '>', "&gt;");
  }

  // Each entity survives the replacements that follow the one that made it.

  lemma {:induction false} EncodeAmp(c: char)
    requires c == '&'
    ensures EncodeHTML([c]) == Escape(c)
  {
    hide ReplaceEach;
    var e := Escape(c);
    var s0 := [c];
    var s1 := ReplaceEach(s0, '&', "&amp;");
    assert s1 == e by { ReplaceEachOne(c, '&', "&amp;"); }
    var s2 := ReplaceEach(s1, '"', "&quot;");
    assert s2 == e by { ReplaceEachAbsent(e, '"', "&quot;"); }
    var s3 := ReplaceEach(s2, '\'', "&#39;");
    assert s3 == e by { ReplaceEachAbsent(e, '\'', "&#39;"); }
    var s4 := ReplaceEach(s3, '<', "&lt;");
    assert s4 == e by { ReplaceEachAbsent(e, '<', "&lt;"); }
    var s5 := ReplaceEach(s4, '>', "&gt;");
    assert s5 == e by { ReplaceEachAbsent(e, '>', "&gt;"); }
  }

  lemma {:induction false} EncodeQuot(c: char)
    requires c == '"'
    ensures EncodeHTML([c]) == Escape(c)
  {
    hide ReplaceEach;
    var e := Escape(c);
    var s0 := [c];
    var s1 := ReplaceEach(s0, '&', "&amp;");
    assert s1 == [c] by { ReplaceEachOne(c, '&', "&amp;"); }
    var s2 := ReplaceEach(s1, '"', "&quot;");
    assert s2 == e by { ReplaceEachOne(c, '"', "&quot;"); }
    var s3 := ReplaceEach(s2, '\'', "&#39;");
    assert s3 == e by { ReplaceEachAbsent(e, '\'', "&#39;"); }
    var s4 := ReplaceEach(s3, '<', "&lt;");
    assert s4 == e by { ReplaceEachAbsent(e, '<', "&lt;"); }
    var s5 := ReplaceEach(s4, '>', "&gt;");
    assert s5 == e by { ReplaceEachAbsent(e, '>', "&gt;"); }
  }

  lemma {:induction false} EncodeApos(c: char)
    requires c == '\''
    ensures EncodeHTML([c]) == Escape(c)
  {
    hide ReplaceEach;
    var e := Escape(c);
    var s0 := [c];
    var s1 := ReplaceEach(s0, '&', "&amp;");
    assert s1 == [c] by { ReplaceEachOne(c, '&', "&amp;"); }
    var s2 := ReplaceEach(s1, '"', "&quot;");
    assert s2 == [c] by { ReplaceEachOne(c, '"', "&quot;"); }
    var s3 := ReplaceEach(s2, '\'', "&#39;");
    assert s3 == e by { ReplaceEachOne(c, '\'', "&#39;"); }
    var s4 := ReplaceEach(s3, '<', "&lt;");
    assert s4 == e by { ReplaceEachAbsent(e, '<', "&lt;"); }
    var s5 := ReplaceEach(s4, '>', "&gt;");
    assert s5 == e by { ReplaceEachAbsent(e, '>', "&gt;"); }
  }

  lemma {:induction false} EncodeLt(c: char)
    requires c == '<'
    ensures EncodeHTML([c]) == Escape(c)
  {
    hide ReplaceEach;
    var e := Escape(c);
    var s0 := [c];
    var s1 := ReplaceEach(s0, '&', "&amp;");
    assert s1 == [c] by { ReplaceEachOne(c, '&', "&amp;"); }
    var s2 := ReplaceEach(s1, '"', "&quot;");
    assert s2 == [c] by { ReplaceEachOne(c, '"', "&quot;"); }
    var s3 := ReplaceEach(s2, '\'', "&#39;");
    assert s3 == [c] by { ReplaceEachOne(c, '\'', "&#39;"); }
    var s4 := ReplaceEach(s3, '<', "&lt;");
    assert s4 == e by { ReplaceEachOne(c, '<', "&lt;"); }
    var s5 := ReplaceEach(s4, '>', "&gt;");
    assert s5 == e by { ReplaceEachAbsent(e, '>', "&gt;"); }
  }

  lemma {:induction false} EncodeGt(c: char)
    requires c == '>'
    ensures EncodeHTML([c]) == Escape(c)
  {
    hide ReplaceEach;
    var e := Escape(c);
    var s0 := [c];
    var s1 := ReplaceEach(s0, '&', "&amp;");
    assert s1 == [c] by { ReplaceEachOne(c, '&', "&amp;"); }
    var s2 := ReplaceEach(s1, '"', "&quot;");
    assert s2 == [c] by { ReplaceEachOne(c, '"', "&quot;"); }
    var s3 := ReplaceEach(s2, '\'', "&#39;");
    assert s3 == [c] by { ReplaceEachOne(c, '\'', "&#39;"); }
    var s4 := ReplaceEach(s3, '<', "&lt;");
    assert s4 == [c] by { ReplaceEachOne(c, '<', "&lt;"); }
    var s5 := ReplaceEach(s4, '>', "&gt;");
    assert s5 == e by { ReplaceEachOne(c, '>', "&gt;"); }
  }

  lemma {:induction false} EncodeHTMLChar(c: char)
    ensures EncodeHTML([c]) == Escape(c)
  {
    if c == '&' {
      EncodeAmp(c);
    } else if c == '"' {
      EncodeQuot(c);
    } else if c == '\'' {
      EncodeApos(c);
    } else if c == '<' {
      EncodeLt(c);
    } else if c == '>' {
      EncodeGt(c);
    } else {
      ReplaceEachOne(c, '&', "&amp;");
      ReplaceEachOne(c, '"', "&quot;");
      ReplaceEachOne(c, '\'', "&#39;");
      ReplaceEachOne(c, '<', "&lt;");
      ReplaceEachOne(c, '>', "&gt;");
    }
  }

  /** The chained replacements encode each character on its own: `&` is escaped before any entity is produced. */
  lemma {:induction false} EncodeHTMLIsEscapeEach(s: string)
    ensures EncodeHTML(s) == EscapeEach(s)
  {
    if s != [] {
      assert s == [s[0]] + s[1..];
      EncodeHTMLAppend([s[0]], s[1..]);
      EncodeHTMLChar(s[0]);
      EncodeHTMLIsEscapeEach(s[1..]);
    }
  }

  /** One of the five entities `sc.encodeHTML` produces begins at `i`. */
  predicate EntityAt(r: string, i: nat) {
    exists e :: e in ["&amp;", "&quot;", "&#39;", "&lt;", "&gt;"] && i + |e| <= |r| && r[i..i + |e|] == e
  }

  /** The character at `i` is not a raw quote or angle bracket, and if it is `&` it begins an entity. */
  predicate SafeAt(r: string, i: nat)
    requires i < |r|
  {
    && r[i] != '"' && r[i] != '\'' && r[i] != '<' && r[i] != '>'
    && (r[i] == '&' ==> EntityAt(r, i))
  }

  /** No raw quote or angle bracket, and every `&` begins one of the five entities. */
  predicate HtmlSafe(r: string) {
    forall i :: 0 <= i < |r| ==> SafeAt(r, i)
  }

  lemma {:induction false} EntityAtAppend(h: string, t: string, i: nat)
    requires EntityAt(h, i)
    ensures EntityAt(h + t, i)
  {
    var e :| e in ["&amp;", "&quot;", "&#39;", "&lt;", "&gt;"] && i + |e| <= |h| && h[i..i + |e|] == e;
    assert (h + t)[i..i + |e|] == h[i..i + |e|];
  }

  lemma {:induction false} EntityAtPrepend(h: string, t: string, i: nat)
    requires EntityAt(t, i)
    ensures EntityAt(h + t, |h| + i)
  {
    var e :| e in ["&amp;", "&quot;", "&#39;", "&lt;", "&gt;"] && i + |e| <= |t| && t[i..i + |e|] == e;
    assert (h + t)[|h| + i..|h| + i + |e|] == t[i..i + |e|];
  }

  lemma {:induction false} SafeAtAppend(h: string, t: string, i: nat)
    requires i < |h| && SafeAt(h, i)
    ensures SafeAt(h + t, i)
  {
    assert (h + t)[i] == h[i];
    if h[i] == '&' {
      EntityAtAppend(h, t, i);
    }
  }

  lemma {:induction false} SafeAtPrepend(h: string, t: string, i: nat)
    requires i < |t| && SafeAt(t, i)
    ensures SafeAt(h + t, |h| + i)
  {
    assert (h + t)[|h| + i] == t[i];
    if t[i] == '&' {
      EntityAtPrepend(h, t, i);
    }
  }

  lemma {:induction false} HtmlSafeAppend(h: string, t: string)
    requires HtmlSafe(h) && HtmlSafe(t)
    ensures HtmlSafe(h + t)
  {
    hide SafeAt;
    var r := h + t;
    forall i | 0 <= i < |r| ensures SafeAt(r, i) {
      if i < |h| {
        SafeAtAppend(h, t, i);
      } else {
        SafeAtPrepend(h, t, i - |h|);
      }
    }
  }

  /** An entity on its own is safe: its `&` begins the entity itself, and its other characters are plain. */
  lemma {:induction false} EntitySafe(e: string)
    requires e in ["&amp;", "&quot;", "&#39;", "&lt;", "&gt;"]
    ensures HtmlSafe(e)
  {
    assert e[0..|e|] == e;
    assert EntityAt(e, 0);
    hide EntityAt;
    forall i | 0 <= i < |e| ensures SafeAt(e, i) {
      assert i == 0 || (e[i] != '&' && e[i] != '"' && e[i] != '\'' && e[i] != '<' && e[i] != '>');
    }
  }

  lemma {:induction false} EscapeSafe(c: char)
    ensures HtmlSafe(Escape(c))
  {
    if c == '&' || c == '"' || c == '\'' || c == '<' || c == '>' {
      EntitySafe(Escape(c));
    } else {
      assert Escape(c)[0] == c;
    }
  }

  lemma {:induction false} EscapeEachSafe(s: string)
    ensures HtmlSafe(EscapeEach(s))
  {
    if s != [] {
      EscapeSafe(s[0]);
      EscapeEachSafe(s[1..]);
      HtmlSafeAppend(Escape(s[0]), EscapeEach(s[1..]));
    }
  }

  /** `sc.encodeHTML` output holds no raw quote or angle bracket, and every `&` in it begins one of the five entities. */
  lemma {:induction false} EncodeHTMLSafe(s: string)
    ensures HtmlSafe(EncodeHTML(s))
  {
    EncodeHTMLIsEscapeEach(s);
    EscapeEachSafe(s);
  }
}
