/** The string operations of Python's `str` type that the servers rely on:
    `strip`, `split()` on whitespace, `split(sep)`, `sep.join`, `in`,
    `startswith`, `lower`/`upper`, `replace` of one character, `rstrip` of
    one character and `str()` of a natural number.  Each is written as a
    function with the meaning Python gives it, and each has a partner lemma
    (an inverse or a characterisation) proved beside it. */
module PyText {

  /** Python's `str.isspace` on one character: the characters that
      `strip()` removes and that `split()` splits on. */
  predicate IsSpace(c: char) {
    c == ' ' || ('\t' <= c <= '\r') || ('\U{1c}' <= c <= '\U{1f}')
    || c == '\U{85}' || c == '\U{a0}' || c == '\U{1680}'
    || ('\U{2000}' <= c <= '\U{200a}') || c == '\U{2028}' || c == '\U{2029}'
    || c == '\U{202f}' || c == '\U{205f}' || c == '\U{3000}'
  }

  predicate AllSpace(s: string) {
    forall k :: 0 <= k < |s| ==> IsSpace(s[k])
  }

  predicate NoSpace(s: string) {
    forall k :: 0 <= k < |s| ==> !IsSpace(s[k])
  }

  // ---------------------------------------------------------------- strip

  /** The first position at or after `i` that does not hold whitespace. */
  function SkipSpaces(s: string, i: nat): (j: nat)
    requires i <= |s|
    ensures i <= j <= |s|
    ensures forall k :: i <= k < j ==> IsSpace(s[k])
    ensures j < |s| ==> !IsSpace(s[j])
    decreases |s| - i
  {
    if i < |s| && IsSpace(s[i]) then SkipSpaces(s, i + 1) else i
  }

  /** The position just after the last non-whitespace character before `j`. */
  function TrimEnd(s: string, j: nat): (e: nat)
    requires j <= |s|
    ensures e <= j
    ensures forall k :: e <= k < j ==> IsSpace(s[k])
    ensures e > 0 ==> !IsSpace(s[e - 1])
  {
    if j > 0 && IsSpace(s[j - 1]) then TrimEnd(s, j - 1) else j
  }

  /** `r` is the slice of `s` starting at `i`, and everything of `s` around it is whitespace. */
  predicate StrippedAt(s: string, r: string, i: int) {
    0 <= i <= i + |r| <= |s| && r == s[i..i + |r|]
    && (forall k :: 0 <= k < i ==> IsSpace(s[k]))
    && (forall k :: i + |r| <= k < |s| ==> IsSpace(s[k]))
  }

  /** `s.strip()`: `s` with its leading and trailing whitespace removed.  The
      result is a contiguous slice of `s`, everything cut away is whitespace,
      and the result neither starts nor ends with whitespace; it is empty
      exactly when `s` is all whitespace. */
  function Strip(s: string): (r: string)
    ensures exists i :: StrippedAt(s, r, i)
    ensures r != [] ==> !IsSpace(r[0]) && !IsSpace(r[|r| - 1])
    ensures r == [] <==> AllSpace(s)
  {
    var i := SkipSpaces(s, 0);
    if i == |s| then
      assert StrippedAt(s, [], |s|);
      []
    else
      var j := TrimEnd(s, |s|);
      assert j > i;
      assert s[i..j][0] == s[i] && s[i..j][j - i - 1] == s[j - 1];
      assert StrippedAt(s, s[i..j], i);
      s[i..j]
  }

  /** Stripping twice is stripping once. */
  lemma StripIdempotent(s: string)
    ensures Strip(Strip(s)) == Strip(s)
  {
    var t := Strip(s);
    if t != [] {
      assert SkipSpaces(t, 0) == 0;
      assert TrimEnd(t, |t|) == |t|;
      assert t[0..|t|] == t;
    }
  }

  /** A text padded with whitespace on either side strips back to the text. */
  lemma StripPadded(pre: string, t: string, post: string)
    requires AllSpace(pre) && AllSpace(post)
    requires t != [] && !IsSpace(t[0]) && !IsSpace(t[|t| - 1])
    ensures Strip(pre + t + post) == t
  {
    var s := pre + t + post;
    var j := |pre| + |t|;
    forall k | 0 <= k < |pre| ensures IsSpace(s[k]) {
      assert s[k] == pre[k];
    }
    forall k | j <= k < |s| ensures IsSpace(s[k]) {
      assert s[k] == post[k - j];
    }
    assert s[|pre|] == t[0];
    assert s[j - 1] == t[|t| - 1];
    assert SkipSpaces(s, 0) == |pre|;
    assert TrimEnd(s, |s|) == j;
    assert s[|pre|..j] == t;
  }

  // --------------------------------------------------------- case mapping

  /** `str.lower` on the ASCII letters; every other character is left alone. */
  function LowerChar(c: char): char {
    if 'A' <= c <= 'Z' then (c as int + 32) as char else c
  }

  function UpperChar(c: char): char {
    if 'a' <= c <= 'z' then (c as int - 32) as char else c
  }

  function Lower(s: string): (r: string)
    ensures |r| == |s| && forall k :: 0 <= k < |s| ==> r[k] == LowerChar(s[k])
  {
    if s == [] then [] else [LowerChar(s[0])] + Lower(s[1..])
  }

  function Upper(s: string): (r: string)
    ensures |r| == |s| && forall k :: 0 <= k < |s| ==> r[k] == UpperChar(s[k])
  {
    if s == [] then [] else [UpperChar(s[0])] + Upper(s[1..])
  }

  // ------------------------------------------------------- search in text

  predicate OccursAt(hay: string, needle: string, i: int) {
    0 <= i && i + |needle| <= |hay| && hay[i..i + |needle|] == needle
  }

  /** Python's `needle in hay`. */
  predicate Contains(hay: string, needle: string)
    decreases |hay|
  {
    |needle| <= |hay| && (hay[..|needle|] == needle || Contains(hay[1..], needle))
  }

  lemma OccursAtShift(hay: string, needle: string, j: nat)
    requires |hay| > 0
    ensures OccursAt(hay, needle, j + 1) <==> OccursAt(hay[1..], needle, j)
  {
    if j + 1 + |needle| <= |hay| {
      assert hay[1..][j..j + |needle|] == hay[j + 1..j + 1 + |needle|];
    }
  }

  /** `needle in hay` holds exactly when `needle` occurs at some position of `hay`. */
  lemma {:induction false} ContainsIff(hay: string, needle: string)
    ensures Contains(hay, needle) <==> exists i :: OccursAt(hay, needle, i)
    decreases |hay|
  {
    if |needle| <= |hay| {
      if hay[..|needle|] == needle {
        assert OccursAt(hay, needle, 0);
      } else {
        ContainsIff(hay[1..], needle);
        if Contains(hay[1..], needle) {
          var j :| OccursAt(hay[1..], needle, j);
          OccursAtShift(hay, needle, j);
        }
        if i :| OccursAt(hay, needle, i) {
          assert i != 0;
          OccursAtShift(hay, needle, i - 1);
        }
      }
    }
  }

  /** `s.endswith(suffix)`. */
  predicate HasSuffix(s: string, suffix: string) {
    |suffix| <= |s| && s[|s| - |suffix|..] == suffix
  }

  /** `s.startswith(prefix)`. */
  predicate StartsWith(s: string, prefix: string) {
    |prefix| <= |s| && s[..|prefix|] == prefix
  }

  /** `s.find(sep)`: the first position where `sep` occurs, or -1. */
  function Find(s: string, sep: string): (r: int)
    requires |sep| > 0
    ensures r == -1 || OccursAt(s, sep, r)
    ensures forall j :: 0 <= j && (r == -1 || j < r) ==> !OccursAt(s, sep, j)
    decreases |s|
  {
    if |s| < |sep| then -1
    else if s[..|sep|] == sep then 0
    else
      var k := Find(s[1..], sep);
      assert forall j: nat :: OccursAt(s, sep, j + 1) <==> OccursAt(s[1..], sep, j) by {
        forall j: nat ensures OccursAt(s, sep, j + 1) <==> OccursAt(s[1..], sep, j) {
          OccursAtShift(s, sep, j);
        }
      }
      assert !OccursAt(s, sep, 0);
      if k == -1 then
        assert forall j :: 0 <= j ==> !OccursAt(s, sep, j) by {
          forall j | 0 <= j ensures !OccursAt(s, sep, j) {
            if j > 0 { assert !OccursAt(s[1..], sep, j - 1); }
          }
        }
        -1
      else
        assert forall j :: 0 <= j < k + 1 ==> !OccursAt(s, sep, j) by {
          forall j | 0 <= j < k + 1 ensures !OccursAt(s, sep, j) {
            if j > 0 { assert !OccursAt(s[1..], sep, j - 1); }
          }
        }
        k + 1
  }

  // ------------------------------------------------------ split and join

  /** `sep.join(parts)`. */
  function Join(parts: seq<string>, sep: string): string
  {
    if |parts| == 0 then ""
    else if |parts| == 1 then parts[0]
    else parts[0] + sep + Join(parts[1..], sep)
  }

  /** `s.split(sep)` for a non-empty separator: the pieces between successive
      left-most, non-overlapping occurrences of `sep`.  There is always at
      least one piece, and no piece contains `sep`. */
  function SplitOn(s: string, sep: string): (parts: seq<string>)
    requires |sep| > 0
    ensures |parts| >= 1
    ensures forall k :: 0 <= k < |parts| ==> !Contains(parts[k], sep)
    decreases |s|
  {
    var i := Find(s, sep);
    if i == -1 then
      ContainsIff(s, sep);
      [s]
    else
      var head := s[..i];
      ContainsIff(head, sep);
      assert forall j :: OccursAt(head, sep, j) ==> OccursAt(s, sep, j) by {
        forall j | OccursAt(head, sep, j) ensures OccursAt(s, sep, j) {
          assert s[j..j + |sep|] == head[j..j + |sep|];
        }
      }
      [head] + SplitOn(s[i + |sep|..], sep)
  }

  /** Joining the pieces of a split with the same separator gives back the text. */
  lemma {:induction false} JoinSplitOn(s: string, sep: string)
    requires |sep| > 0
    ensures Join(SplitOn(s, sep), sep) == s
    decreases |s|
  {
    var i := Find(s, sep);
    var parts := SplitOn(s, sep);
    if i != -1 {
      var head := s[..i];
      var rest := s[i + |sep|..];
      assert parts == [head] + SplitOn(rest, sep);
      JoinSplitOn(rest, sep);
      JoinCons(head, SplitOn(rest, sep), sep);
      assert OccursAt(s, sep, i);
      assert s == head + s[i..i + |sep|] + rest;
    }
  }

  /** No character of `p` is one of the characters of `sep`. */
  predicate FreeOf(p: string, sep: string) {
    forall k :: 0 <= k < |p| ==> p[k] !in sep
  }

  /** The converse, for pieces that share no character with the separator:
      splitting their join gives back the pieces. */
  lemma {:induction false} SplitOnJoin(parts: seq<string>, sep: string)
    requires |parts| >= 1 && |sep| > 0
    requires forall k :: 0 <= k < |parts| ==> FreeOf(parts[k], sep)
    ensures SplitOn(Join(parts, sep), sep) == parts
    decreases |parts|
  {
    var s := Join(parts, sep);
    var p := parts[0];
    if |parts| == 1 {
      assert s[..|p|] == p;
      NoOccurrenceIn(s, sep, p);
      assert Find(s, sep) == -1;
    } else {
      var rest := Join(parts[1..], sep);
      assert s == p + sep + rest;
      assert s[..|p|] == p;
      NoOccurrenceIn(s, sep, p);
      assert OccursAt(s, sep, |p|) by { assert s[|p|..|p| + |sep|] == sep; }
      assert Find(s, sep) == |p|;
      assert s[|p| + |sep|..] == rest;
      SplitOnJoin(parts[1..], sep);
      assert parts == [p] + parts[1..];
    }
  }

  /** A separator cannot start inside a prefix that shares no character with it. */
  lemma NoOccurrenceIn(s: string, sep: string, p: string)
    requires |p| <= |s| && s[..|p|] == p && FreeOf(p, sep) && |sep| > 0
    ensures forall j :: 0 <= j < |p| ==> !OccursAt(s, sep, j)
  {
    forall j | 0 <= j < |p| ensures !OccursAt(s, sep, j) {
      assert s[j] == p[j];
      if j + |sep| <= |s| {
        assert s[j..j + |sep|][0] == s[j];
      }
    }
  }

  /** A text without the separator splits into itself alone. */
  lemma SplitOnFree(s: string, sep: string)
    requires |sep| > 0 && !Contains(s, sep)
    ensures SplitOn(s, sep) == [s]
  {
    ContainsIff(s, sep);
    assert forall j :: !OccursAt(s, sep, j);
  }

  /** When the first occurrence of the separator is the one right after `p`,
      the first piece is `p` and the rest is split on its own. */
  lemma SplitOnFirst(p: string, sep: string, r: string)
    requires |sep| > 0
    requires forall j :: 0 <= j < |p| ==> !OccursAt(p + sep + r, sep, j)
    ensures SplitOn(p + sep + r, sep) == [p] + SplitOn(r, sep)
  {
    var s := p + sep + r;
    assert OccursAt(s, sep, |p|) by { assert s[|p|..|p| + |sep|] == sep; }
    assert Find(s, sep) == |p|;
    assert s[..|p|] == p && s[|p| + |sep|..] == r;
  }

  // -------------------------------------------------- split on whitespace

  /** The end of the run of non-whitespace characters that starts at `i`. */
  function WordEnd(s: string, i: nat): (e: nat)
    requires i <= |s|
    ensures i <= e <= |s|
    ensures forall k :: i <= k < e ==> !IsSpace(s[k])
    ensures e < |s| ==> IsSpace(s[e])
    decreases |s| - i
  {
    if i < |s| && !IsSpace(s[i]) then WordEnd(s, i + 1) else i
  }

  /** The words of `s` from position `i` on. */
  function WordsFrom(s: string, i: nat): (ws: seq<string>)
    requires i <= |s|
    ensures forall k :: 0 <= k < |ws| ==> ws[k] != [] && NoSpace(ws[k])
    ensures ws == [] <==> forall k :: i <= k < |s| ==> IsSpace(s[k])
    decreases |s| - i
  {
    var b := SkipSpaces(s, i);
    if b == |s| then []
    else
      var e := WordEnd(s, b);
      var w := s[b..e];
      assert !IsSpace(s[b]) && e > b;
      assert NoSpace(w) by {
        forall k | 0 <= k < |w| ensures !IsSpace(w[k]) {
          assert w[k] == s[b + k];
        }
      }
      [w] + WordsFrom(s, e)
  }

  /** `s.split()` with no argument: the maximal runs of non-whitespace
      characters, in order.  Every word is non-empty and holds no whitespace,
      and there are none exactly when `s` is all whitespace. */
  function Words(s: string): (ws: seq<string>)
    ensures forall k :: 0 <= k < |ws| ==> ws[k] != [] && NoSpace(ws[k])
    ensures ws == [] <==> AllSpace(s)
  {
    WordsFrom(s, 0)
  }

  function JoinSpace(ws: seq<string>): string {
    Join(ws, " ")
  }

  lemma JoinCons(h: string, rest: seq<string>, sep: string)
    requires |rest| >= 1
    ensures Join([h] + rest, sep) == h + sep + Join(rest, sep)
  {
    assert ([h] + rest)[1..] == rest;
  }

  lemma WordAt(s: string, i: nat, w: string, e: nat)
    requires e == i + |w| && e <= |s| && s[i..e] == w && w != [] && NoSpace(w)
    requires e < |s| ==> IsSpace(s[e])
    ensures WordsFrom(s, i) == [w] + WordsFrom(s, e)
  {
    assert forall k :: i <= k < e ==> !IsSpace(s[k]) by {
      forall k | i <= k < e ensures !IsSpace(s[k]) { assert s[k] == w[k - i]; }
    }
    assert SkipSpaces(s, i) == i;
    assert WordEnd(s, i) == e;
  }

  lemma SkipOneSpace(s: string, e: nat, j: nat)
    requires e < |s| && IsSpace(s[e]) && j == e + 1
    ensures WordsFrom(s, e) == WordsFrom(s, j)
  {
    assert SkipSpaces(s, e) == SkipSpaces(s, j);
  }

  /** Every member of `ws` is a non-empty run of non-whitespace characters. */
  predicate AllWords(ws: seq<string>) {
    ws == [] || (ws[0] != [] && NoSpace(ws[0]) && AllWords(ws[1..]))
  }

  lemma {:induction false} AllWordsIff(ws: seq<string>)
    ensures AllWords(ws) <==> forall k :: 0 <= k < |ws| ==> ws[k] != [] && NoSpace(ws[k])
  {
    if ws != [] {
      AllWordsIff(ws[1..]);
      assert forall k :: 1 <= k < |ws| ==> ws[k] == ws[1..][k - 1];
    }
  }

  lemma {:induction false} WordsFromJoin(s: string, i: nat, ws: seq<string>)
    requires i <= |s| && s[i..] == Join(ws, " ")
    requires AllWords(ws)
    ensures WordsFrom(s, i) == ws
    decreases |ws|
  {
    if ws == [] {
      WordsFromEnd(s, i);
    } else if |ws| == 1 {
      WordsFromLast(s, i, ws[0]);
      assert ws == [ws[0]];
    } else {
      var j := i + |ws[0]| + 1;
      WordsSplitFirst(s, i, ws, j);
      WordsFromJoin(s, j, ws[1..]);
      assert ws == [ws[0]] + ws[1..];
    }
  }

  lemma WordsFromEnd(s: string, i: nat)
    requires i <= |s| && s[i..] == []
    ensures WordsFrom(s, i) == []
  {
    assert SkipSpaces(s, i) == |s|;
  }

  lemma WordsFromLast(s: string, i: nat, w: string)
    requires i <= |s| && s[i..] == w && w != [] && NoSpace(w)
    ensures WordsFrom(s, i) == [w]
  {
    var e := i + |w|;
    assert s[i..e] == w;
    WordAt(s, i, w, e);
    WordsFromEnd(s, e);
  }

  lemma WordsSplitFirst(s: string, i: nat, ws: seq<string>, j: nat)
    requires i <= |s| && s[i..] == Join(ws, " ") && |ws| >= 2 && j == i + |ws[0]| + 1
    requires AllWords(ws)
    ensures j <= |s| && s[j..] == Join(ws[1..], " ")
    ensures AllWords(ws[1..])
    ensures WordsFrom(s, i) == [ws[0]] + WordsFrom(s, j)
  {
    JoinFirst(ws, " ");
    WordsAfterFirst(s, i, ws[0], Join(ws[1..], " "), j);
  }

  lemma JoinFirst(ws: seq<string>, sep: string)
    requires |ws| >= 2
    ensures Join(ws, sep) == ws[0] + sep + Join(ws[1..], sep)
  {
  }

  lemma WordsAfterFirst(s: string, i: nat, w: string, t: string, j: nat)
    requires i <= |s| && s[i..] == w + " " + t && j == i + |w| + 1
    requires w != [] && NoSpace(w)
    ensures j <= |s| && s[j..] == t
    ensures WordsFrom(s, i) == [w] + WordsFrom(s, j)
  {
    var e := i + |w|;
    SplitThree(s, i, w, t, e, j);
    assert IsSpace(s[e]);
    WordAt(s, i, w, e);
    SkipOneSpace(s, e, j);
  }

  lemma SplitThree(s: string, i: nat, w: string, t: string, e: nat, j: nat)
    requires i <= |s| && s[i..] == w + " " + t && e == i + |w| && j == e + 1
    ensures j <= |s| && s[i..e] == w && s[e] == ' ' && s[j..] == t
  {
    var u := s[i..];
    assert |u| == |w| + 1 + |t|;
    assert forall k :: 0 <= k < |w| ==> s[i + k] == w[k] by {
      forall k | 0 <= k < |w| ensures s[i + k] == w[k] { assert u[k] == s[i + k]; }
    }
    assert u[|w|] == ' ';
    assert forall k :: 0 <= k < |t| ==> s[i + |w| + 1 + k] == t[k] by {
      forall k | 0 <= k < |t| ensures s[i + |w| + 1 + k] == t[k] { assert u[|w| + 1 + k] == t[k]; }
    }
  }

  /** A space-separated join of words begins with the first character of
      the first word and ends with the last character of the last word. */
  lemma {:induction false} JoinSpaceEdges(ws: seq<string>)
    requires |ws| >= 1 && forall k :: 0 <= k < |ws| ==> ws[k] != [] && NoSpace(ws[k])
    ensures JoinSpace(ws) != [] && JoinSpace(ws)[0] == ws[0][0]
    ensures JoinSpace(ws)[|JoinSpace(ws)| - 1] == ws[|ws| - 1][|ws[|ws| - 1]| - 1]
    decreases |ws|
  {
    if |ws| > 1 {
      JoinFirst(ws, " ");
      assert forall k :: 0 <= k < |ws| - 1 ==> ws[1..][k] == ws[k + 1];
      JoinSpaceEdges(ws[1..]);
      assert ws[1..][|ws| - 2] == ws[|ws| - 1];
    }
  }

  /** A word followed by words is a list of words. */
  lemma WordsCons(w: string, args: seq<string>)
    requires w != [] && NoSpace(w)
    requires forall k :: 0 <= k < |args| ==> args[k] != [] && NoSpace(args[k])
    ensures forall k :: 0 <= k < |[w] + args| ==> ([w] + args)[k] != [] && NoSpace(([w] + args)[k])
  {
    var ws := [w] + args;
    forall k | 0 <= k < |ws| ensures ws[k] != [] && NoSpace(ws[k]) {
      if k > 0 { assert ws[k] == args[k - 1]; }
    }
  }

  /** Splitting a space-separated join of words gives back the words. */
  lemma WordsOfJoin(ws: seq<string>)
    requires forall k :: 0 <= k < |ws| ==> ws[k] != [] && NoSpace(ws[k])
    ensures Words(JoinSpace(ws)) == ws
  {
    var s := JoinSpace(ws);
    assert s[0..] == s;
    AllWordsIff(ws);
    WordsFromJoin(s, 0, ws);
  }

  /** Words separated by the whitespace runs `gaps`, one run between each
      two words. */
  function GapJoin(ws: seq<string>, gaps: seq<string>): string
    requires |ws| >= 1 && |gaps| == |ws| - 1
    decreases |ws|
  {
    if |ws| == 1 then ws[0] else ws[0] + gaps[0] + GapJoin(ws[1..], gaps[1..])
  }

  /** Every gap is a non-empty run of whitespace. */
  predicate AllGaps(gaps: seq<string>) {
    forall k :: 0 <= k < |gaps| ==> gaps[k] != [] && AllSpace(gaps[k])
  }

  /** A run of whitespace before a position changes no word after it. */
  lemma SkipRun(s: string, e: nat, j: nat)
    requires e <= j <= |s| && forall k :: e <= k < j ==> IsSpace(s[k])
    ensures WordsFrom(s, e) == WordsFrom(s, j)
  {
    SkipSpacesRun(s, e, j);
  }

  lemma {:induction false} SkipSpacesRun(s: string, e: nat, j: nat)
    requires e <= j <= |s| && forall k :: e <= k < j ==> IsSpace(s[k])
    ensures SkipSpaces(s, e) == SkipSpaces(s, j)
    decreases j - e
  {
    if e < j {
      SkipSpacesRun(s, e + 1, j);
    }
  }

  lemma SplitGap(s: string, i: nat, w: string, g: string, t: string, e: nat, j: nat)
    requires i <= |s| && s[i..] == w + g + t && e == i + |w| && j == e + |g|
    ensures j <= |s| && s[i..e] == w && s[e..j] == g && s[j..] == t
  {
    var u := s[i..];
    assert u[..|w|] == w && u[|w|..|w| + |g|] == g && u[|w| + |g|..] == t;
    assert s[i..e] == u[..|w|];
    assert s[e..j] == u[|w|..|w| + |g|];
    assert s[j..] == u[|w| + |g|..];
  }

  lemma {:induction false} WordsFromGapJoin(s: string, i: nat, ws: seq<string>, gaps: seq<string>)
    requires |ws| >= 1 && |gaps| == |ws| - 1 && i <= |s| && s[i..] == GapJoin(ws, gaps)
    requires forall k :: 0 <= k < |ws| ==> ws[k] != [] && NoSpace(ws[k])
    requires AllGaps(gaps)
    ensures WordsFrom(s, i) == ws
    decreases |ws|
  {
    if |ws| == 1 {
      WordsFromLast(s, i, ws[0]);
      assert ws == [ws[0]];
    } else {
      var t := GapJoin(ws[1..], gaps[1..]);
      var j := i + |ws[0]| + |gaps[0]|;
      WordsAfterGap(s, i, ws[0], gaps[0], t, j);
      assert forall k :: 0 <= k < |ws| - 1 ==> ws[1..][k] == ws[k + 1];
      assert forall k :: 0 <= k < |gaps| - 1 ==> gaps[1..][k] == gaps[k + 1];
      WordsFromGapJoin(s, j, ws[1..], gaps[1..]);
      calc {
        WordsFrom(s, i);
        [ws[0]] + WordsFrom(s, j);
        [ws[0]] + ws[1..];
        { HeadTail(ws); }
        ws;
      }
    }
  }

  lemma HeadTail(ws: seq<string>)
    requires ws != []
    ensures [ws[0]] + ws[1..] == ws
  {
  }

  lemma WordsAfterGap(s: string, i: nat, w: string, g: string, t: string, j: nat)
    requires i <= |s| && s[i..] == w + g + t && j == i + |w| + |g|
    requires w != [] && NoSpace(w) && g != [] && AllSpace(g)
    ensures j <= |s| && s[j..] == t
    ensures WordsFrom(s, i) == [w] + WordsFrom(s, j)
  {
    var e := i + |w|;
    SplitGap(s, i, w, g, t, e, j);
    assert s[e] == g[0];
    WordAt(s, i, w, e);
    assert forall k :: e <= k < j ==> IsSpace(s[k]) by {
      forall k | e <= k < j ensures IsSpace(s[k]) { assert s[k] == g[k - e]; }
    }
    SkipRun(s, e, j);
  }

  /** Splitting words joined by any runs of whitespace gives back the words. */
  lemma WordsOfGapJoin(ws: seq<string>, gaps: seq<string>)
    requires |ws| >= 1 && |gaps| == |ws| - 1 && AllGaps(gaps)
    requires forall k :: 0 <= k < |ws| ==> ws[k] != [] && NoSpace(ws[k])
    ensures Words(GapJoin(ws, gaps)) == ws
  {
    var s := GapJoin(ws, gaps);
    assert s[0..] == s;
    WordsFromGapJoin(s, 0, ws, gaps);
  }

  /** Such a join begins with the first word's first character and ends
      with the last word's last character. */
  lemma {:induction false} GapJoinEdges(ws: seq<string>, gaps: seq<string>)
    requires |ws| >= 1 && |gaps| == |ws| - 1
    requires forall k :: 0 <= k < |ws| ==> ws[k] != []
    ensures GapJoin(ws, gaps) != [] && GapJoin(ws, gaps)[0] == ws[0][0]
    ensures GapJoin(ws, gaps)[|GapJoin(ws, gaps)| - 1] == ws[|ws| - 1][|ws[|ws| - 1]| - 1]
    decreases |ws|
  {
    if |ws| > 1 {
      assert forall k :: 0 <= k < |ws| - 1 ==> ws[1..][k] == ws[k + 1];
      GapJoinEdges(ws[1..], gaps[1..]);
      assert ws[1..][|ws| - 2] == ws[|ws| - 1];
    }
  }

  // ------------------------------------------------- characters of URLs

  /** `s.replace(a, b)` for single characters. */
  function ReplaceChar(s: string, a: char, b: char): (r: string)
    ensures |r| == |s|
    ensures forall k :: 0 <= k < |s| ==> r[k] == if s[k] == a then b else s[k]
  {
    if s == [] then [] else [if s[0] == a then b else s[0]] + ReplaceChar(s[1..], a, b)
  }

  /** `s.rstrip(c)`: the longest prefix of `s` that does not end in `c`. */
  function RStripChar(s: string, c: char): (r: string)
    ensures |r| <= |s| && r == s[..|r|]
    ensures forall k :: |r| <= k < |s| ==> s[k] == c
    ensures r != [] ==> r[|r| - 1] != c
  {
    if |s| > 0 && s[|s| - 1] == c then
      var t := RStripChar(s[..|s| - 1], c);
      assert forall k :: |t| <= k < |s| - 1 ==> s[k] == s[..|s| - 1][k];
      t
    else s
  }

  // --------------------------------------------------- decimal numerals

  predicate IsDigit(c: char) {
    '0' <= c <= '9'
  }

  function DigitChar(d: nat): (c: char)
    requires d < 10
    ensures IsDigit(c)
  {
    ('0' as int + d) as char
  }

  /** `str(n)` for a natural number: its decimal numeral, without leading zeros. */
  function NatToString(n: nat): (r: string)
    ensures |r| >= 1 && forall k :: 0 <= k < |r| ==> IsDigit(r[k])
    ensures |r| > 1 ==> r[0] != '0'
  {
    if n < 10 then [DigitChar(n)] else NatToString(n / 10) + [DigitChar(n % 10)]
  }

  /** The value of a decimal numeral. */
  function ParseNat(s: string): nat
    requires forall k :: 0 <= k < |s| ==> IsDigit(s[k])
  {
    if s == [] then 0
    else
      assert IsDigit(s[|s| - 1]);
      ParseNat(s[..|s| - 1]) * 10 + (s[|s| - 1] as int - '0' as int)
  }

  /** Reading back a numeral written by `NatToString` gives the number. */
  lemma {:induction false} ParseNatToString(n: nat)
    ensures ParseNat(NatToString(n)) == n
  {
    if n >= 10 {
      var r := NatToString(n);
      assert r[..|r| - 1] == NatToString(n / 10);
      ParseNatToString(n / 10);
    }
  }
}
