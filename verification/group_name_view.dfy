/**
 The header strip above the lanes: a spacer as wide as the leading inset, then
 one label per lane placed with a running x offset. A lane name that splits into
 exactly two non-empty lines has its second line set in a smaller font.
 */
module GroupNameView {
  import opened Wrappers
  import opened CalendarStyle
  import opened StringRanges

  /** End of the line that starts at `i`: the first newline at or after `i`, or the
      end of the text. */
  function LineEnd(s: string, i: nat): (j: nat)
    requires i <= |s|
    ensures i <= j <= |s|
    decreases |s| - i
  {
    if i == |s| || s[i] == '\n' then i else LineEnd(s, i + 1)
  }

  lemma {:induction false} LineEndStopsAtNewline(s: string, i: nat)
    requires i <= |s|
    ensures forall k :: i <= k < LineEnd(s, i) ==> s[k] != '\n'
    ensures LineEnd(s, i) < |s| ==> s[LineEnd(s, i)] == '\n'
    decreases |s| - i
  {
    if i < |s| && s[i] != '\n' {
      LineEndStopsAtNewline(s, i + 1);
    }
  }

  /**
   The non-empty lines of `s[i...]` as spans: what `split(separator: "\n")` cuts
   out, with the empty pieces between consecutive newlines dropped.
   */
  function LinesFrom(s: string, i: nat): (r: seq<Span>)
    requires i <= |s|
    ensures forall k :: 0 <= k < |r| ==> i <= r[k].lower < r[k].upper <= |s|
    decreases |s| - i
  {
    if i == |s| then []
    else if s[i] == '\n' then LinesFrom(s, i + 1)
    else [Span(i, LineEnd(s, i))] + LinesFrom(s, LineEnd(s, i))
  }

  /** `split(separator: "\n")` on the whole text. */
  function Split(s: string): (lines: seq<string>)
    ensures |lines| == |LinesFrom(s, 0)|
    ensures forall k :: 0 <= k < |lines| ==>
      lines[k] == s[LinesFrom(s, 0)[k].lower..LinesFrom(s, 0)[k].upper]
  {
    var spans := LinesFrom(s, 0);
    seq(|spans|, k requires 0 <= k < |spans| => s[spans[k].lower..spans[k].upper])
  }

  predicate NewlineFree(s: string) {
    forall k :: 0 <= k < |s| ==> s[k] != '\n'
  }

  /**
   `line` is a maximal run of non-newline characters of `s[from...]`: nothing inside
   it is a newline, and it is bounded by a newline or the end of the text on the
   right and, unless it starts at `from`, by a newline on the left.
   */
  predicate IsRun(s: string, from: nat, line: Span) {
    && line.lower < line.upper <= |s|
    && (forall c :: line.lower <= c < line.upper ==> s[c] != '\n')
    && (line.upper == |s| || s[line.upper] == '\n')
    && (line.lower > from ==> s[line.lower - 1] == '\n')
  }

  lemma {:induction false} LinesAreRuns(s: string, i: nat)
    requires i <= |s|
    ensures var r := LinesFrom(s, i);
      forall k :: 0 <= k < |r| ==> IsRun(s, i, r[k])
    decreases |s| - i
  {
    var r := LinesFrom(s, i);
    if i < |s| {
      if s[i] == '\n' {
        assert r == LinesFrom(s, i + 1);
        LinesAreRuns(s, i + 1);
      } else {
        var j := LineEnd(s, i);
        LineEndStopsAtNewline(s, i);
        LinesAreRuns(s, j);
        var rest := LinesFrom(s, j);
        assert forall k :: 0 <= k < |LinesFrom(s, j)| ==> IsRun(s, j, LinesFrom(s, j)[k]);
        assert r == [Span(i, j)] + rest;
        forall k | 0 < k < |r|
          ensures IsRun(s, i, r[k])
        {
          var line := rest[k - 1];
          assert r[k] == line && IsRun(s, j, line);
          assert s[line.lower] != '\n';
        }
      }
    }
  }

  /** The lines come left to right, with at least one newline between two of them. */
  lemma {:induction false} LinesOrdered(s: string, i: nat)
    requires i <= |s|
    ensures var r := LinesFrom(s, i);
      forall k, l :: 0 <= k < l < |r| ==> r[k].upper < r[l].lower
    decreases |s| - i
  {
    var r := LinesFrom(s, i);
    if i < |s| {
      if s[i] == '\n' {
        assert r == LinesFrom(s, i + 1);
        LinesOrdered(s, i + 1);
      } else {
        var j := LineEnd(s, i);
        LinesOrdered(s, j);
        LinesAreRuns(s, j);
        LineEndStopsAtNewline(s, i);
        assert forall k :: 0 <= k < |LinesFrom(s, j)| ==> IsRun(s, j, LinesFrom(s, j)[k]);
        assert forall k, l :: 0 <= k < l < |LinesFrom(s, j)| ==>
          LinesFrom(s, j)[k].upper < LinesFrom(s, j)[l].lower;
        var rest := LinesFrom(s, j);
        assert r == [Span(i, j)] + rest;
        forall k, l | 0 <= k < l < |r|
          ensures r[k].upper < r[l].lower
        {
          assert r[l] == rest[l - 1];
          if k > 0 {
            assert r[k] == rest[k - 1];
          } else {
            assert IsRun(s, j, rest[l - 1]);
            assert s[rest[l - 1].lower] != '\n';
          }
        }
      }
    }
  }

  /** Every character of `s[i...]` that is not a newline lies on some line. */
  lemma {:induction false} LinesCover(s: string, i: nat, c: nat)
    requires i <= c < |s|
    requires s[c] != '\n'
    ensures var r := LinesFrom(s, i);
      exists k :: 0 <= k < |r| && r[k].lower <= c < r[k].upper
    decreases |s| - i
  {
    var r := LinesFrom(s, i);
    if s[i] == '\n' {
      assert r == LinesFrom(s, i + 1);
      LinesCover(s, i + 1, c);
      var k :| 0 <= k < |LinesFrom(s, i + 1)| &&
        LinesFrom(s, i + 1)[k].lower <= c < LinesFrom(s, i + 1)[k].upper;
      assert LinesFrom(s, i)[k].lower <= c < LinesFrom(s, i)[k].upper;
    } else {
      var j := LineEnd(s, i);
      var rest := LinesFrom(s, j);
      assert r == [Span(i, j)] + rest;
      if c < j {
        assert 0 < |r| && r[0] == Span(i, j);
        assert LinesFrom(s, i)[0].lower <= c < LinesFrom(s, i)[0].upper;
      } else {
        LineEndStopsAtNewline(s, i);
        LinesCover(s, j, c);
        var k :| 0 <= k < |LinesFrom(s, j)| && LinesFrom(s, j)[k].lower <= c < LinesFrom(s, j)[k].upper;
        assert r[k + 1] == rest[k];
      }
    }
  }

  /** After the last line only newlines follow. */
  lemma TrailingNewlines(s: string)
    ensures var r := LinesFrom(s, 0);
      |r| > 0 ==> forall c :: r[|r| - 1].upper <= c < |s| ==> s[c] == '\n'
  {
    var r := LinesFrom(s, 0);
    if |r| > 0 {
      LinesOrdered(s, 0);
      forall c | r[|r| - 1].upper <= c < |s|
        ensures s[c] == '\n'
      {
        if s[c] != '\n' {
          LinesCover(s, 0, c);
        }
      }
    }
  }

  /** A match of a single-line pattern never covers a newline of the text. */
  lemma MatchAvoidsNewline(text: string, pattern: string, j: nat, x: nat)
    requires MatchesAt(text, pattern, j)
    requires NewlineFree(pattern)
    requires x < |text| && text[x] == '\n'
    ensures !(j <= x < j + |pattern|)
  {
  }

  /**
   The search of `ranges(of:)` reports an occurrence at `p` when no occurrence
   starting earlier reaches past `p`: the greedy scan never jumps over it.
   */
  lemma {:induction false} SearchReaches(text: string, pattern: string, from: nat, p: nat) returns (k: nat)
    requires from <= p < |text|
    requires MatchesAt(text, pattern, p)
    requires forall j :: from <= j < p && MatchesAt(text, pattern, j) ==> j + |pattern| <= p
    ensures k < |MatchesFrom(text, pattern, from)| && MatchesFrom(text, pattern, from)[k].lower == p
    decreases |text| - from
  {
    var lower := FirstAtOrBefore(text, pattern, from, p);
    if lower == p {
      ReportsFirst(text, pattern, from);
      k := 0;
    } else {
      var next := Resume(Span(lower, lower + |pattern|), |text|);
      var k' := SearchReaches(text, pattern, next, p);
      ReportsLater(text, pattern, from, k');
      k := k' + 1;
    }
  }

  /** The search from `from` stops at `p` or earlier, and when it stops earlier it
      resumes after `from` and no later than `p`. */
  lemma FirstAtOrBefore(text: string, pattern: string, from: nat, p: nat) returns (lower: nat)
    requires from <= p < |text|
    requires MatchesAt(text, pattern, p)
    requires forall j :: from <= j < p && MatchesAt(text, pattern, j) ==> j + |pattern| <= p
    ensures FindFrom(text, pattern, from) == Some(lower)
    ensures from <= lower <= p
    ensures lower < p ==> from < Resume(Span(lower, lower + |pattern|), |text|) <= p
  {
    FindFromLeftmost(text, pattern, from);
    lower := FindFrom(text, pattern, from).value;
  }

  /** The first reported range is the one the first search finds. */
  lemma ReportsFirst(text: string, pattern: string, from: nat)
    requires from <= |text|
    requires FindFrom(text, pattern, from).Some?
    ensures |MatchesFrom(text, pattern, from)| > 0
    ensures MatchesFrom(text, pattern, from)[0].lower == FindFrom(text, pattern, from).value
  {
    MatchesFromStep(text, pattern, from);
  }

  /** The ranges reported after resuming follow the first one. */
  lemma ReportsLater(text: string, pattern: string, from: nat, k: nat)
    requires from <= |text|
    requires FindFrom(text, pattern, from).Some?
    requires
      var lower := FindFrom(text, pattern, from).value;
      var next := Resume(Span(lower, lower + |pattern|), |text|);
      next <= |text| && k < |MatchesFrom(text, pattern, next)|
    ensures
      var lower := FindFrom(text, pattern, from).value;
      var next := Resume(Span(lower, lower + |pattern|), |text|);
      && k + 1 < |MatchesFrom(text, pattern, from)|
      && MatchesFrom(text, pattern, from)[k + 1] == MatchesFrom(text, pattern, next)[k]
  {
    MatchesFromStep(text, pattern, from);
  }

  /** A name with two non-empty lines always has its second line reported by the search. */
  lemma SecondLineFound(name: string)
    requires |LinesFrom(name, 0)| == 2
    ensures |MatchesFrom(name, Split(name)[1], 0)| > 0
  {
    SecondLineIsSingleLine(name);
    var k := SearchReaches(name, Split(name)[1], 0, LinesFrom(name, 0)[1].lower);
  }

  /**
   The span `updateStyle` sets in the smaller font, as written: the first range
   `ranges(of:)` reports for the second line, searched in the whole name. That
   range always exists for a two-line name, so the plain-text fallback after
   `ranges.first` is never taken.
   */
  function SubtitleSpanAsWritten(name: string): (r: Option<Span>)
    ensures r.Some? <==> |Split(name)| == 2
    ensures r.Some? ==>
      r.value.lower <= r.value.upper <= |name| && name[r.value.lower..r.value.upper] == Split(name)[1]
    ensures r.Some? ==> forall j :: 0 <= j < r.value.lower ==> !MatchesAt(name, Split(name)[1], j)
  {
    var lines := Split(name);
    if |lines| == 2 then
      SecondLineFound(name);
      MatchesSpellPattern(name, lines[1], 0);
      MatchesFirst(name, lines[1], 0);
      Some(MatchesFrom(name, lines[1], 0)[0])
    else None
  }

  /** When the second line also occurs inside the first, the first line gets the
      smaller font: for "ab\nb" the "b" of "ab" is styled, not the second line. */
  lemma AsWrittenStylesFirstLine()
    ensures Split("ab\nb") == ["ab", "b"]
    ensures LinesFrom("ab\nb", 0)[1] == Span(3, 4)
    ensures SubtitleSpanAsWritten("ab\nb") == Some(Span(1, 2))
    ensures LabelContent("ab\nb") == Attributed("ab\nb", Span(1, 2))
  {
    var name := "ab\nb";
    assert LineEnd(name, 3) == 4;
    assert LinesFrom(name, 4) == [];
    assert LinesFrom(name, 3) == [Span(3, 4)];
    assert LineEnd(name, 0) == 2;
    assert LinesFrom(name, 2) == [Span(3, 4)];
    assert LinesFrom(name, 0) == [Span(0, 2), Span(3, 4)];
    assert name[0..2] == "ab" && name[3..4] == "b";
    assert Split(name) == ["ab", "b"];
    assert !MatchesAt(name, "b", 0) && MatchesAt(name, "b", 1);
    assert FindFrom(name, "b", 0) == Some(1);
  }

  /**
   The span set in the smaller font, corrected: the last range `ranges(of:)`
   reports for the second line, which is the second line itself.
   */
  function SubtitleSpan(name: string): (r: Option<Span>)
  {
    var lines := Split(name);
    if |lines| == 2 then
      var found := MatchesFrom(name, lines[1], 0);
      if |found| > 0 then Some(found[|found| - 1]) else None
    else None
  }

  /** A name with exactly two non-empty lines gets its second line styled, and no
      other name gets anything styled. */
  lemma SubtitleSpanIsSecondLine(name: string)
    ensures SubtitleSpan(name).Some? <==> |Split(name)| == 2
    ensures SubtitleSpan(name).Some? ==> SubtitleSpan(name).value == LinesFrom(name, 0)[1]
  {
    if |LinesFrom(name, 0)| == 2 {
      var p, q := LinesFrom(name, 0)[1].lower, LinesFrom(name, 0)[1].upper;
      var pattern := Split(name)[1];
      SecondLineIsSingleLine(name);
      var k := SearchReaches(name, pattern, 0, p);
      LastReachedIsLast(name, pattern, p, q, k);
      MatchesWithin(name, pattern, 0);
      assert MatchesFrom(name, pattern, 0)[k] == Span(p, q);
    }
  }

  /** The second of two lines spells itself where it stands, holds no newline, and
      no occurrence of it that starts earlier reaches it. */
  lemma SecondLineIsSingleLine(name: string)
    requires |LinesFrom(name, 0)| == 2
    ensures var line := LinesFrom(name, 0)[1];
      var pattern := Split(name)[1];
      && pattern == name[line.lower..line.upper]
      && NewlineFree(pattern)
      && MatchesAt(name, pattern, line.lower)
      && (forall j :: 0 <= j < line.lower && MatchesAt(name, pattern, j) ==> j + |pattern| <= line.lower)
  {
    var p, q := LinesFrom(name, 0)[1].lower, LinesFrom(name, 0)[1].upper;
    var pattern := Split(name)[1];
    assert pattern == name[p..q];
    LinesAreRuns(name, 0);
    LinesOrdered(name, 0);
    assert IsRun(name, 0, LinesFrom(name, 0)[1]);
    assert LinesFrom(name, 0)[0].upper < p;
    assert NewlineFree(pattern) by {
      forall c | 0 <= c < |pattern|
        ensures pattern[c] != '\n'
      {
        assert pattern[c] == name[p + c];
      }
    }
    forall j | 0 <= j < p && MatchesAt(name, pattern, j)
      ensures j + |pattern| <= p
    {
      MatchAvoidsNewline(name, pattern, j, p - 1);
    }
  }

  /** No occurrence of the last line starts after the last line does. */
  lemma LastReachedIsLast(name: string, pattern: string, p: nat, q: nat, k: nat)
    requires |LinesFrom(name, 0)| > 0
    requires LinesFrom(name, 0)[|LinesFrom(name, 0)| - 1] == Span(p, q)
    requires pattern == name[p..q] && NewlineFree(pattern)
    requires k < |MatchesFrom(name, pattern, 0)| && MatchesFrom(name, pattern, 0)[k].lower == p
    ensures k == |MatchesFrom(name, pattern, 0)| - 1
  {
    var found := MatchesFrom(name, pattern, 0);
    if k < |found| - 1 {
      var l := |found| - 1;
      MatchesOrdered(name, pattern, 0);
      MatchesSpellPattern(name, pattern, 0);
      MatchesWithin(name, pattern, 0);
      TrailingNewlines(name);
      var lower := found[l].lower;
      assert MatchesAt(name, pattern, lower);
      var x := if lower < q then q else lower;
      MatchAvoidsNewline(name, pattern, lower, x);
      assert false;
    }
  }

  /** The text of a lane's label: the plain name, or the name with one span set in
      the smaller font. */
  datatype LabelText = Plain(text: string) | Attributed(text: string, smaller: Span)

  /**
   The label text `updateStyle` builds, as written: a name with two non-empty lines
   gets the first occurrence of its second line's text set in the smaller font.
   */
  function LabelContent(name: string): (t: LabelText)
    ensures t.text == name
    ensures t.Attributed? <==> |Split(name)| == 2
    ensures t.Attributed? ==> SubtitleSpanAsWritten(name) == Some(t.smaller)
  {
    match SubtitleSpanAsWritten(name)
    case Some(span) => Attributed(name, span)
    case None => Plain(name)
  }

  /** The label text with the styled span corrected to the second line itself. */
  function LabelContentCorrected(name: string): LabelText {
    match SubtitleSpan(name)
    case Some(span) => Attributed(name, span)
    case None => Plain(name)
  }

  /** A corrected label shows the whole name, and sets exactly the second line of a
      two-line name in the smaller font. */
  lemma LabelContentStylesSecondLine(name: string)
    ensures LabelContentCorrected(name).text == name
    ensures LabelContentCorrected(name).Attributed? <==> |Split(name)| == 2
    ensures LabelContentCorrected(name).Attributed? ==>
      LabelContentCorrected(name).smaller == LinesFrom(name, 0)[1]
  {
    SubtitleSpanIsSecondLine(name);
  }

  /** Corrected, "ab\nb" gets its second line, 3..<4, in the smaller font. */
  lemma CorrectedStylesSecondLine()
    ensures LabelContentCorrected("ab\nb") == Attributed("ab\nb", Span(3, 4))
  {
    AsWrittenStylesFirstLine();
    LabelContentStylesSecondLine("ab\nb");
  }

  /** The code as written and the correction agree exactly when the second line's
      text does not occur before the second line. */
  lemma {:induction false} AsWrittenAgreesUnlessRepeated(name: string)
    requires |Split(name)| == 2
    ensures LabelContent(name) == LabelContentCorrected(name) <==>
      forall j :: 0 <= j < LinesFrom(name, 0)[1].lower ==> !MatchesAt(name, Split(name)[1], j)
  {
    var line := LinesFrom(name, 0)[1];
    var pattern := Split(name)[1];
    SubtitleSpanIsSecondLine(name);
    SecondLineIsSingleLine(name);
    var first := SubtitleSpanAsWritten(name).value;
    assert MatchesAt(name, pattern, first.lower) by {
      assert name[first.lower..first.upper] == pattern;
    }
    if forall j :: 0 <= j < line.lower ==> !MatchesAt(name, pattern, j) {
      assert first.lower == line.lower;
    } else {
      assert first.lower < line.lower;
    }
  }

  datatype Label = Label(frame: Frame, content: LabelText)

  /** Height of the header strip and of every view in it. */
  const HeaderHeight: real := 30.0

  /** Where label `index` goes: after the leading inset and the lanes before it. */
  function LabelFrame(style: TimelineStyle, index: nat): Frame {
    Frame(style.leadingInset + GroupX(style, index), 0.0, GroupWidth(style, index), HeaderHeight)
  }

  /** The labels tile the strip: each starts where the previous one ends, and the
      last one ends at the content width. */
  lemma LabelsTile(style: TimelineStyle, i: nat)
    ensures i + 1 < GroupCount(style) ==>
      LabelFrame(style, i).x + LabelFrame(style, i).width == LabelFrame(style, i + 1).x
    ensures i + 1 == GroupCount(style) ==>
      LabelFrame(style, i).x + LabelFrame(style, i).width == ContentWidth(style)
  {
    GroupXPrefixSum(style, i);
    GroupXPrefixSum(style, i + 1);
    ContentWidthIsLastEdge(style);
  }

  /** `labels` with `item` added at the end (`addSubview`). */
  function Push(labels: seq<Label>, item: Label): (r: seq<Label>)
    ensures |r| == |labels| + 1 && r[|labels|] == item
    ensures forall i :: 0 <= i < |labels| ==> r[i] == labels[i]
  {
    labels + [item]
  }

  /** One pass of the label loop: the label for lane `index` at the running offset,
      and the offset moved past the lane. */
  method PlaceLabel(style: TimelineStyle, index: nat, currentX: real) returns (item: Label, nextX: real)
    requires index < GroupCount(style)
    requires currentX == GroupX(style, index)
    ensures item == Label(LabelFrame(style, index), LabelContent(style.group[index].name))
    ensures nextX == GroupX(style, index + 1)
  {
    var frame := Frame(currentX + style.leadingInset, 0.0, GroupWidth(style, index), HeaderHeight);
    item := Label(frame, LabelContent(style.group[index].name));
    GroupXPrefixSum(style, index);
    nextX := currentX + GroupWidth(style, index);
  }

  /**
   `updateStyle`: the spacer covering the leading inset, then one label per lane,
   placed by adding each lane's width to a running x offset; the offset before lane
   `i` is the sum of the widths of the lanes before it.
   */
  method UpdateStyle(style: TimelineStyle) returns (spacer: Frame, labels: seq<Label>)
    ensures spacer == Frame(0.0, 0.0, style.leadingInset, HeaderHeight)
    ensures |labels| == GroupCount(style)
    ensures forall i :: 0 <= i < |labels| ==>
      labels[i] == Label(LabelFrame(style, i), LabelContent(style.group[i].name))
  {
    spacer := Frame(0.0, 0.0, style.leadingInset, HeaderHeight);
    labels := [];
    var currentX: real := 0.0;
    GroupXPrefixSum(style, 0);
    for index := 0 to |style.group|
      invariant |labels| == index
      invariant currentX == GroupX(style, index)
      invariant forall i :: 0 <= i < index ==>
        labels[i] == Label(LabelFrame(style, i), LabelContent(style.group[i].name))
    {
      var item;
      item, currentX := PlaceLabel(style, index, currentX);
      labels := Push(labels, item);
    }
  }

  /** With the default style there are no lanes: the header is the spacer over the
      53-point leading inset and nothing else. */
  method DefaultHeader() returns (spacer: Frame, labels: seq<Label>)
    ensures spacer == Frame(0.0, 0.0, 53.0, HeaderHeight)
    ensures labels == []
  {
    spacer, labels := UpdateStyle(DefaultTimelineStyle());
  }
}
