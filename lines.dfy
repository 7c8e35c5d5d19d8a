/** The text side of `render`: splitting on '\n', the measurement pass over
    the text, and the `strtok` walk that yields the lines that are drawn.
    A text here is the contents of the NUL-terminated C string, that is the
    characters before its terminator. */
module Lines {
  import opened CArith

  /** The segments between '\n' characters, in order: a text with `k`
      newlines has `k + 1` segments, the last one unterminated (and possibly
      empty). */
  function SplitLines(s: seq<char>): (r: seq<seq<char>>)
    ensures |r| >= 1
    decreases |s|
  {
    if s == [] then [[]] else Step(SplitLines(s[..|s| - 1]), s[|s| - 1])
  }

  /** Reading one more character: a '\n' starts a new, empty segment;
      anything else extends the current (last) one. */
  function Step(ls: seq<seq<char>>, c: char): (r: seq<seq<char>>)
    requires |ls| >= 1
    ensures |r| >= 1
  {
    if c == '\n' then ls + [[]] else ls[..|ls| - 1] + [ls[|ls| - 1] + [c]]
  }

  /** Step only looks at the last segment. */
  lemma StepConcat(l: seq<seq<char>>, y: seq<seq<char>>, c: char)
    requires |y| >= 1
    ensures Step(l + y, c) == l + Step(y, c)
  {
    var ly := l + y;
    assert ly[..|ly| - 1] == l + y[..|y| - 1];
  }

  /** Puts '\n' between consecutive segments: the inverse of SplitLines. */
  function Join(ls: seq<seq<char>>): seq<char>
    requires |ls| >= 1
    decreases |ls|
  {
    if |ls| == 1 then ls[0] else Join(ls[..|ls| - 1]) + ['\n'] + ls[|ls| - 1]
  }

  function CountNewlines(s: seq<char>): nat { multiset(s)['\n'] }

  /** The segments that a '\n' ends: all but the last. */
  function Terminated(s: seq<char>): seq<seq<char>>
  {
    var ls := SplitLines(s);
    ls[..|ls| - 1]
  }

  /** The greatest length among `ls`; zero for no segments at all. */
  function MaxLen(ls: seq<seq<char>>): (m: nat)
    ensures forall i :: 0 <= i < |ls| ==> |ls[i]| <= m
    ensures ls == [] ==> m == 0
    ensures ls != [] ==> exists i :: 0 <= i < |ls| && |ls[i]| == m
    decreases |ls|
  {
    if ls == [] then 0
    else
      var m0 := MaxLen(ls[..|ls| - 1]);
      var last := |ls[|ls| - 1]|;
      if last > m0 then last else m0
  }

  /** Drops the empty segments, keeping the order of the rest. */
  function NonEmpty(ls: seq<seq<char>>): (r: seq<seq<char>>)
    ensures |r| <= |ls|
    decreases |ls|
  {
    if ls == [] then []
    else
      var init := NonEmpty(ls[..|ls| - 1]);
      var last := ls[|ls| - 1];
      if last == [] then init else init + [last]
  }

  /** The lines `render` draws: the non-empty '\n'-free segments, in order.
      A text without '\n' is its own only line, unless it is empty. */
  function DrawnLines(s: seq<char>): (r: seq<seq<char>>)
    ensures '\n' !in s ==> r == if s == [] then [] else [s]
  {
    if '\n' in s then NonEmpty(SplitLines(s))
    else
      SplitLinesNoNewline(s);
      NonEmptySingle(s);
      NonEmpty(SplitLines(s))
  }

  /** Appending one character either closes the current segment (a '\n')
      or extends it. */
  lemma SplitLinesSnoc(s: seq<char>, c: char)
    ensures SplitLines(s + [c]) == Step(SplitLines(s), c)
  {
    assert (s + [c])[..|s + [c]| - 1] == s;
  }

  /** There is one more segment than there are newlines. */
  lemma {:induction false} SplitLinesCount(s: seq<char>)
    ensures |SplitLines(s)| == CountNewlines(s) + 1
    decreases |s|
  {
    if s != [] {
      var init, c := s[..|s| - 1], s[|s| - 1];
      assert s == init + [c];
      SplitLinesCount(init);
      SplitLinesSnoc(init, c);
      assert multiset(s) == multiset(init) + multiset{c};
    }
  }

  /** No segment contains the delimiter. */
  lemma {:induction false} SegmentsNewlineFree(s: seq<char>)
    ensures forall i :: 0 <= i < |SplitLines(s)| ==> '\n' !in SplitLines(s)[i]
    decreases |s|
  {
    if s != [] {
      var init, c := s[..|s| - 1], s[|s| - 1];
      assert s == init + [c];
      SegmentsNewlineFree(init);
      SplitLinesSnoc(init, c);
    }
  }

  /** NonEmpty keeps only non-empty elements, each taken from `ls`. */
  lemma {:induction false} NonEmptyElements(ls: seq<seq<char>>)
    ensures forall i :: 0 <= i < |NonEmpty(ls)| ==> NonEmpty(ls)[i] != [] && NonEmpty(ls)[i] in ls
    decreases |ls|
  {
    if ls != [] {
      var init := ls[..|ls| - 1];
      NonEmptyElements(init);
      assert forall l :: l in init ==> l in ls;
    }
  }

  /** Every line `render` draws is a non-empty run of characters without
      '\n', as every token `strtok` returns is. */
  lemma DrawnLinesShape(s: seq<char>)
    ensures forall i :: 0 <= i < |DrawnLines(s)| ==> DrawnLines(s)[i] != [] && '\n' !in DrawnLines(s)[i]
  {
    NonEmptyElements(SplitLines(s));
    SegmentsNewlineFree(s);
    forall i | 0 <= i < |DrawnLines(s)|
      ensures '\n' !in DrawnLines(s)[i]
    {
      var j :| 0 <= j < |SplitLines(s)| && SplitLines(s)[j] == DrawnLines(s)[i];
    }
  }

  /** Round trip: joining the segments with '\n' gives the text back. */
  lemma {:induction false} SplitLinesJoin(s: seq<char>)
    ensures Join(SplitLines(s)) == s
    decreases |s|
  {
    if s != [] {
      var init, c := s[..|s| - 1], s[|s| - 1];
      assert s == init + [c];
      SplitLinesJoin(init);
      var ls := SplitLines(init);
      SplitLinesSnoc(init, c);
      if c == '\n' {
        var r := ls + [[]];
        assert r[..|r| - 1] == ls;
      } else {
        var front, last := ls[..|ls| - 1], ls[|ls| - 1];
        var r := front + [last + [c]];
        assert r[..|r| - 1] == front;
        if |ls| > 1 {
          assert ls[..|ls| - 1] == front;
          assert Join(r) == Join(front) + ['\n'] + (last + [c]);
        }
      }
    }
  }

  /** A text without '\n' is a single segment. */
  lemma {:induction false} SplitLinesNoNewline(s: seq<char>)
    requires '\n' !in s
    ensures SplitLines(s) == [s]
    decreases |s|
  {
    if s != [] {
      assert s == s[..|s| - 1] + [s[|s| - 1]];
      SplitLinesNoNewline(s[..|s| - 1]);
      SplitLinesSnoc(s[..|s| - 1], s[|s| - 1]);
    }
  }

  /** Splitting distributes over a '\n' between two texts. */
  lemma {:induction false} SplitLinesAt(a: seq<char>, b: seq<char>)
    ensures SplitLines(a + ['\n'] + b) == SplitLines(a) + SplitLines(b)
    decreases |b|
  {
    if b == [] {
      assert a + ['\n'] + b == a + ['\n'];
      SplitLinesSnoc(a, '\n');
    } else {
      var b', c := b[..|b| - 1], b[|b| - 1];
      var x := a + ['\n'] + b';
      SplitLinesAt(a, b');
      assert b == b' + [c];
      assert a + ['\n'] + b == x + [c];
      SplitLinesSnoc(x, c);
      SplitLinesSnoc(b', c);
      StepConcat(SplitLines(a), SplitLines(b'), c);
    }
  }

  /** The inverse round trip: segments without '\n' are recovered from
      their join. */
  lemma {:induction false} JoinSplitLines(ls: seq<seq<char>>)
    requires |ls| >= 1
    requires forall i :: 0 <= i < |ls| ==> '\n' !in ls[i]
    ensures SplitLines(Join(ls)) == ls
    decreases |ls|
  {
    if |ls| == 1 {
      SplitLinesNoNewline(ls[0]);
    } else {
      var init, last := ls[..|ls| - 1], ls[|ls| - 1];
      assert forall i :: 0 <= i < |init| ==> init[i] == ls[i];
      JoinSplitLines(init);
      assert Join(ls) == Join(init) + ['\n'] + last;
      SplitLinesAt(Join(init), last);
      SplitLinesNoNewline(last);
      assert ls == init + [last];
    }
  }

  lemma {:induction false} NonEmptyConcat(a: seq<seq<char>>, b: seq<seq<char>>)
    ensures NonEmpty(a + b) == NonEmpty(a) + NonEmpty(b)
    decreases |b|
  {
    if b == [] {
      assert a + b == a;
    } else {
      var b', last := b[..|b| - 1], b[|b| - 1];
      NonEmptyConcat(a, b');
      assert (a + b)[..|a + b| - 1] == a + b';
    }
  }

  lemma NonEmptySingle(l: seq<char>)
    ensures NonEmpty([l]) == if l == [] then [] else [l]
  {
    assert [l][..0] == [];
  }

  /** Leading, trailing and repeated newlines draw nothing: a blank line
      between two texts is the same as none. */
  lemma BlankLineSkipped(a: seq<char>, b: seq<char>)
    ensures DrawnLines(a + ['\n', '\n'] + b) == DrawnLines(a + ['\n'] + b)
  {
    assert a + ['\n', '\n'] + b == a + ['\n'] + (['\n'] + b);
    DrawnLinesAt(a, ['\n'] + b);
    LinesLeadingNewline(b);
    DrawnLinesAt(a, b);
  }

  /** The lines drawn from two texts joined by a '\n'. */
  lemma DrawnLinesAt(a: seq<char>, b: seq<char>)
    ensures DrawnLines(a + ['\n'] + b) == NonEmpty(SplitLines(a)) + DrawnLines(b)
  {
    SplitLinesAt(a, b);
    NonEmptyConcat(SplitLines(a), SplitLines(b));
  }

  /** Whatever follows the last '\n' is not a terminated segment, so it never
      reaches the width estimate: `"ab\nlonger tail"` measures as `"ab\n"`. */
  lemma UnterminatedTailIgnored(a: seq<char>, t: seq<char>)
    requires '\n' !in t
    ensures Terminated(a + ['\n'] + t) == SplitLines(a)
    ensures Terminated(t) == []
  {
    SplitLinesAt(a, t);
    SplitLinesNoNewline(t);
    assert (SplitLines(a) + [t])[..|SplitLines(a)|] == SplitLines(a);
  }

  /** The segment still open at the end of `s` (after its last '\n'). */
  function CurrentLine(s: seq<char>): seq<char>
  {
    var ls := SplitLines(s);
    ls[|ls| - 1]
  }

  /** What one more character does to the quantities the measurement pass
      tracks. */
  lemma MeasureStep(p: seq<char>, c: char)
    ensures CountNewlines(p + [c]) == CountNewlines(p) + (if c == '\n' then 1 else 0)
    ensures c == '\n' ==> Terminated(p + [c]) == Terminated(p) + [CurrentLine(p)] && CurrentLine(p + [c]) == []
    ensures c != '\n' ==> Terminated(p + [c]) == Terminated(p) && |CurrentLine(p + [c])| == |CurrentLine(p)| + 1
  {
    assert multiset(p + [c]) == multiset(p) + multiset{c};
    SplitLinesSnoc(p, c);
    var ls := SplitLines(p);
    if c == '\n' {
      assert (ls + [[]])[..|ls|] == ls == ls[..|ls| - 1] + [ls[|ls| - 1]];
    } else {
      var r := ls[..|ls| - 1] + [ls[|ls| - 1] + [c]];
      assert r[..|r| - 1] == ls[..|ls| - 1];
    }
  }

  lemma MaxLenSnoc(ls: seq<seq<char>>, l: seq<char>)
    ensures MaxLen(ls + [l]) == if |l| > MaxLen(ls) then |l| else MaxLen(ls)
  {
    assert (ls + [l])[..|ls|] == ls;
  }

  /** The measurement pass's step at index `i`, on the prefixes it tracks. */
  lemma MeasureAt(text: seq<char>, i: int)
    requires 0 <= i < |text|
    ensures var p, q := text[..i], text[..i + 1];
      CountNewlines(q) == CountNewlines(p) + (if text[i] == '\n' then 1 else 0) &&
      (text[i] == '\n' ==>
        MaxLen(Terminated(q)) == (if |CurrentLine(p)| > MaxLen(Terminated(p)) then |CurrentLine(p)| else MaxLen(Terminated(p))) &&
        |CurrentLine(q)| == 0) &&
      (text[i] != '\n' ==>
        MaxLen(Terminated(q)) == MaxLen(Terminated(p)) && |CurrentLine(q)| == |CurrentLine(p)| + 1)
  {
    assert text[..i + 1] == text[..i] + [text[i]];
    MeasureStep(text[..i], text[i]);
    if text[i] == '\n' {
      MaxLenSnoc(Terminated(text[..i]), CurrentLine(text[..i]));
    }
  }

  lemma MulSucc(n: int, x: int)
    ensures (n + 1) * x == n * x + x
  {
  }

  /** `total_height`: one line height (`height >> 6`) per '\n'-terminated
      segment of the text, blank segments included. */
  function TotalHeight(text: seq<char>, heightMetric: int): (r: int)
    ensures r == |Terminated(text)| * Shr6(heightMetric)
  {
    SplitLinesCount(text);
    CountNewlines(text) * Shr6(heightMetric)
  }

  /** `total_width`: half the font size per character of the longest
      '\n'-terminated segment, rounded down; every terminated segment fits
      within it, up to the pixel the rounding drops. */
  function TotalWidth(text: seq<char>, fontSize: int): (r: int)
    ensures fontSize >= 0 ==> 0 <= r && 2 * r <= MaxLen(Terminated(text)) * fontSize <= 2 * r + 1
    ensures fontSize >= 0 ==>
      forall i :: 0 <= i < |Terminated(text)| ==> |Terminated(text)[i]| * fontSize <= 2 * r + 1
  {
    var ls := Terminated(text);
    WidestFits(ls, fontSize);
    TruncDiv(MaxLen(ls) * fontSize, 2)
  }

  /** At a non-negative font size, no segment is wider than the longest. */
  lemma WidestFits(ls: seq<seq<char>>, fontSize: int)
    ensures fontSize >= 0 ==> 0 <= MaxLen(ls) * fontSize
    ensures fontSize >= 0 ==> forall i :: 0 <= i < |ls| ==> |ls[i]| * fontSize <= MaxLen(ls) * fontSize
  {
    forall i | 0 <= i < |ls| && fontSize >= 0
      ensures |ls[i]| * fontSize <= MaxLen(ls) * fontSize
    {
      MulLe(|ls[i]|, MaxLen(ls), fontSize);
    }
  }

  lemma MulLe(a: nat, b: nat, k: nat)
    requires a <= b
    ensures a * k <= b * k
  {
    assert b * k == a * k + (b - a) * k;
  }

  /** The measurement pass. Every '\n' adds the line height `height >> 6`
      (the 26.6 metric); `cur` counts the characters since the last '\n', and
      is compared with the running maximum only when a '\n' ends it, so the
      final unterminated segment never contributes to the width. The width is
      estimated as half the font size per character, with C's division. */
  method Measure(text: seq<char>, heightMetric: int, fontSize: int)
    returns (totalHeight: int, totalWidth: int, maxLineLen: int)
    ensures totalHeight == TotalHeight(text, heightMetric)
    ensures maxLineLen == MaxLen(Terminated(text))
    ensures totalWidth == TotalWidth(text, fontSize)
  {
    totalHeight, maxLineLen := 0, 0;
    var lineHeight := Shr6(heightMetric);
    var curLineLen := 0;
    var i := 0;
    ghost var newlines := 0;
    while i < |text|
      invariant 0 <= i <= |text|
      invariant newlines == CountNewlines(text[..i]) && totalHeight == newlines * lineHeight
      invariant maxLineLen == MaxLen(Terminated(text[..i]))
      invariant curLineLen == |CurrentLine(text[..i])|
    {
      MeasureAt(text, i);
      if text[i] == '\n' {
        MulSucc(newlines, lineHeight);
        newlines := newlines + 1;
        totalHeight := totalHeight + lineHeight;
        if curLineLen > maxLineLen {
          maxLineLen := curLineLen;
        }
        curLineLen := 0;
      } else {
        curLineLen := curLineLen + 1;
      }
      i := i + 1;
    }
    assert text[..i] == text;
    totalWidth := TruncDiv(maxLineLen * fontSize, 2);
  }

  /** A leading '\n' draws nothing. */
  lemma LinesLeadingNewline(b: seq<char>)
    ensures DrawnLines(['\n'] + b) == DrawnLines(b)
  {
    assert ['\n'] + b == [] + ['\n'] + b;
    DrawnLinesAt([], b);
    assert SplitLines([]) == [[]];
    NonEmptySingle([]);
  }

  /** A non-empty run without '\n' followed by a '\n' is one drawn line. */
  lemma LinesAt(t: seq<char>, b: seq<char>)
    requires t != [] && '\n' !in t
    ensures DrawnLines(t + ['\n'] + b) == [t] + DrawnLines(b)
  {
    DrawnLinesAt(t, b);
    SplitLinesNoNewline(t);
    NonEmptySingle(t);
  }

  /** What one `strtok(…, "\n")` call on the remaining text `text[pos..]`
      yields: either no token, when no line is left to draw, or the token
      `text[start..end]`, which is the first line left to draw, with the
      next call resuming at `next`, just past the delimiter that ended the
      token (or at the end of the text). */
  ghost predicate Token(text: seq<char>, pos: nat, found: bool, start: nat, end: nat, next: nat)
    requires pos <= |text|
  {
    if found then
      pos <= start < end <= next <= |text| && next <= end + 1 &&
      DrawnLines(text[pos..]) == [text[start..end]] + DrawnLines(text[next..])
    else
      DrawnLines(text[pos..]) == []
  }

  /** After the `strtok` calls so far, the lines `drawn` have been returned
      and `text[pos..]` holds the rest. */
  ghost predicate Remaining(text: seq<char>, pos: nat, drawn: seq<seq<char>>)
  {
    pos <= |text| && drawn + DrawnLines(text[pos..]) == DrawnLines(text)
  }

  /** A token moves from the rest of the text to the lines returned. */
  lemma TokenTaken(text: seq<char>, pos: nat, drawn: seq<seq<char>>, start: nat, end: nat, next: nat)
    requires Remaining(text, pos, drawn) && Token(text, pos, true, start, end, next)
    ensures Remaining(text, next, drawn + [text[start..end]])
  {
    assert drawn + [text[start..end]] + DrawnLines(text[next..]) == drawn + DrawnLines(text[pos..]);
  }

  /** Once `strtok` returns NULL, every line has been returned. */
  lemma NoTokenLeft(text: seq<char>, pos: nat, drawn: seq<seq<char>>, start: nat, end: nat, next: nat)
    requires Remaining(text, pos, drawn) && Token(text, pos, false, start, end, next)
    ensures drawn == DrawnLines(text)
  {
    assert drawn + [] == drawn;
  }

  /** The delimiter-skipping half of `strtok`: the run of '\n' at `pos`
      is skipped, and skipping it draws no line. */
  method SkipNewlines(text: seq<char>, pos: nat) returns (i: nat)
    requires pos <= |text|
    ensures pos <= i <= |text| && (i == |text| || text[i] != '\n')
    ensures forall k :: pos <= k < i ==> text[k] == '\n'
    ensures DrawnLines(text[pos..]) == DrawnLines(text[i..])
  {
    i := pos;
    while i < |text| && text[i] == '\n'
      invariant pos <= i <= |text|
      invariant forall k :: pos <= k < i ==> text[k] == '\n'
      invariant DrawnLines(text[pos..]) == DrawnLines(text[i..])
    {
      assert text[i..] == ['\n'] + text[i + 1..];
      LinesLeadingNewline(text[i + 1..]);
      i := i + 1;
    }
  }

  /** The token-scanning half of `strtok`: the token runs from `i` up to the
      next '\n' or the end of the text. */
  method TokenEnd(text: seq<char>, i: nat) returns (j: nat)
    requires i <= |text|
    ensures i <= j <= |text| && (j == |text| || text[j] == '\n')
    ensures '\n' !in text[i..j]
  {
    j := i;
    while j < |text| && text[j] != '\n'
      invariant i <= j <= |text|
      invariant '\n' !in text[i..j]
    {
      assert text[i..j + 1] == text[i..j] + [text[j]];
      j := j + 1;
    }
  }

  /** At the end of the text no line is left to draw. */
  lemma NothingLeft(text: seq<char>)
    ensures DrawnLines(text[|text|..]) == []
  {
    assert text[|text|..] == [];
  }

  /** A token that runs to the end of the text is the last line drawn. */
  lemma LastToken(text: seq<char>, i: nat)
    requires i < |text| && '\n' !in text[i..]
    ensures DrawnLines(text[i..]) == [text[i..|text|]] + DrawnLines(text[|text|..])
  {
    assert text[i..] == text[i..|text|];
    NothingLeft(text);
  }

  /** One `strtok(…, "\n")` call on the remaining text `text[pos..]`: skips
      the delimiters, then takes the longest run without '\n'. When no
      token is left, `strtok` returns NULL (`found` is false). */
  method NextToken(text: seq<char>, pos: nat) returns (found: bool, start: nat, end: nat, next: nat)
    requires pos <= |text|
    ensures Token(text, pos, found, start, end, next)
  {
    var i := SkipNewlines(text, pos);
    if i == |text| {
      found, start, end, next := false, i, i, i;
      NothingLeft(text);
      return;
    }
    var j := TokenEnd(text, i);
    found, start, end := true, i, j;
    assert text[i..j] != [] by { assert text[i..j][0] == text[i]; }
    if j == |text| {
      next := j;
      LastToken(text, i);
    } else {
      next := j + 1;
      assert text[i..] == text[i..j] + ['\n'] + text[j + 1..];
      LinesAt(text[i..j], text[j + 1..]);
    }
  }
}
