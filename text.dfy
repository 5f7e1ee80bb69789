/**
 * The JavaScript string primitives the core relies on: `String.prototype.trim`, which
 * strips white space and line terminators from both ends, and `split('\n')`.
 */
module Text {

  /**
   * The characters `trim` removes: the white space of
   * section 12.2 of ECMA-262 (tab, vertical tab, form feed, space, no-break space,
   * byte order mark and the other space separators) and its line terminators
   * (line feed, carriage return, line and paragraph separators).
   */
  predicate IsWhiteSpace(c: char)
  {
    c == '\t' || c == '\n' || c == '\U{000B}' || c == '\U{000C}' || c == '\r' || c == ' ' ||
    c == '\U{00A0}' || c == '\U{1680}' || ('\U{2000}' <= c <= '\U{200A}') ||
    c == '\U{2028}' || c == '\U{2029}' || c == '\U{202F}' || c == '\U{205F}' ||
    c == '\U{3000}' || c == '\U{FEFF}'
  }

  /** Every character of `s` is white space: what `!s.trim()` tests. */
  predicate Blank(s: string)
  {
    forall i :: 0 <= i < |s| ==> IsWhiteSpace(s[i])
  }

  /** The index of the first character at or after `i` that is not white space. */
  function SkipStart(s: string, i: nat): (j: nat)
    requires i <= |s|
    ensures i <= j <= |s|
    ensures forall k :: i <= k < j ==> IsWhiteSpace(s[k])
    ensures j < |s| ==> !IsWhiteSpace(s[j])
    decreases |s| - i
  {
    if i == |s| || !IsWhiteSpace(s[i]) then i else SkipStart(s, i + 1)
  }

  /** The index just past the last character before `j`, and at or after `i`, that is not white space. */
  function SkipEnd(s: string, i: nat, j: nat): (k: nat)
    requires i <= j <= |s|
    ensures i <= k <= j
    ensures forall m :: k <= m < j ==> IsWhiteSpace(s[m])
    ensures k > i ==> !IsWhiteSpace(s[k - 1])
    decreases j
  {
    if j == i || !IsWhiteSpace(s[j - 1]) then j else SkipEnd(s, i, j - 1)
  }

  /** `s.trim()`. */
  function Trim(s: string): string
  {
    var i := SkipStart(s, 0);
    s[i..SkipEnd(s, i, |s|)]
  }

  /**
   * What `trim` does: it cuts `s` into white space, a middle and white space, where the
   * middle is empty or begins and ends with other characters.
   */
  lemma TrimSplits(s: string)
    ensures exists i, j :: 0 <= i <= j <= |s| && Trim(s) == s[i..j] && Blank(s[..i]) && Blank(s[j..])
    ensures Trim(s) != [] ==> !IsWhiteSpace(Trim(s)[0]) && !IsWhiteSpace(Trim(s)[|Trim(s)| - 1])
  {
    var i := SkipStart(s, 0);
    var j := SkipEnd(s, i, |s|);
    assert Blank(s[..i]);
    assert Blank(s[j..]);
  }

  /** The trimmed text is empty exactly when the text is blank. */
  lemma TrimEmpty(s: string)
    ensures Trim(s) == [] <==> Blank(s)
  {
    var i := SkipStart(s, 0);
    var j := SkipEnd(s, i, |s|);
    if Trim(s) == [] {
      assert i == |s|;
    }
  }

  /** Trimming twice is trimming once. */
  lemma TrimIdempotent(s: string)
    ensures Trim(Trim(s)) == Trim(s)
  {
    var t := Trim(s);
    TrimSplits(s);
    if t != [] {
      assert SkipStart(t, 0) == 0;
      assert SkipEnd(t, 0, |t|) == |t|;
      assert t[0..|t|] == t;
    }
  }

  /** Occurrences of `c` in `s`. */
  function Count(s: string, c: char): nat
  {
    if s == [] then 0 else Count(s[..|s| - 1], c) + (if s[|s| - 1] == c then 1 else 0)
  }

  /**
   * `s.split('\n')`: the pieces between line feeds, one more than there are line feeds
   * (an empty string gives one empty piece).
   */
  function Lines(s: string): (r: seq<string>)
    ensures |r| >= 1
    decreases |s|
  {
    if s == [] then [[]]
    else
      var r := Lines(s[..|s| - 1]);
      if s[|s| - 1] == '\n' then r + [[]] else r[..|r| - 1] + [r[|r| - 1] + [s[|s| - 1]]]
  }

  /** The pieces joined back with line feeds. */
  function JoinLines(r: seq<string>): string
    requires |r| >= 1
  {
    if |r| == 1 then r[0] else JoinLines(r[..|r| - 1]) + "\n" + r[|r| - 1]
  }

  /** Splitting gives one piece more than there are line feeds, none of which holds one, and joining undoes it. */
  lemma {:induction false} LinesCorrect(s: string)
    ensures |Lines(s)| == Count(s, '\n') + 1
    ensures forall k :: 0 <= k < |Lines(s)| ==> Count(Lines(s)[k], '\n') == 0
    ensures JoinLines(Lines(s)) == s
  {
    LinesCount(s);
    LinesNoFeed(s);
    LinesJoin(s);
  }

  lemma {:induction false} LinesCount(s: string)
    ensures |Lines(s)| == Count(s, '\n') + 1
    decreases |s|
  {
    if s != [] {
      LinesCount(s[..|s| - 1]);
    }
  }

  lemma {:induction false} LinesNoFeed(s: string)
    ensures forall k :: 0 <= k < |Lines(s)| ==> Count(Lines(s)[k], '\n') == 0
    decreases |s|
  {
    if s != [] {
      var c := s[|s| - 1];
      LinesNoFeed(s[..|s| - 1]);
      var r := Lines(s[..|s| - 1]);
      if c != '\n' {
        var last := r[|r| - 1];
        assert (last + [c])[..|last + [c]| - 1] == last;
        assert Count(last + [c], '\n') == 0;
      }
    }
  }

  lemma {:induction false} LinesJoin(s: string)
    ensures JoinLines(Lines(s)) == s
    decreases |s|
  {
    if s != [] {
      var init, c := s[..|s| - 1], s[|s| - 1];
      LinesJoin(init);
      var r := Lines(init);
      if c == '\n' {
        JoinLinesPush(r);
      } else {
        JoinLinesExtend(r, c);
      }
      assert s == init + [c];
    }
  }

  /** Starting a new, empty piece adds a line feed to the joined text. */
  lemma JoinLinesPush(r: seq<string>)
    requires |r| >= 1
    ensures JoinLines(r + [[]]) == JoinLines(r) + "\n"
  {
    assert (r + [[]])[..|r|] == r;
  }

  /** Extending the last piece by `c` extends the joined text by `c`. */
  lemma JoinLinesExtend(r: seq<string>, c: char)
    requires |r| >= 1
    ensures JoinLines(r[..|r| - 1] + [r[|r| - 1] + [c]]) == JoinLines(r) + [c]
  {
    var front, last := r[..|r| - 1], r[|r| - 1];
    var r' := front + [last + [c]];
    if |r| > 1 {
      assert r'[..|r'| - 1] == front;
      var x := JoinLines(front) + "\n";
      assert JoinLines(r') == x + (last + [c]);
      assert JoinLines(r) == x + last;
      assert x + (last + [c]) == (x + last) + [c];
    }
  }
}
