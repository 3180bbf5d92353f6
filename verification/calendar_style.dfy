/**
 Hour-window helpers of `DateStyle` and the lane ("group") arithmetic of
 `TimelineStyle`. Widths are exact reals standing in for `CGFloat`; the
 colour and font fields of the style structs are not modelled.
 */
module CalendarStyle {
  import opened Wrappers

  /** How the hour ruler is labelled; `Custom` shows only a window of hours. */
  datatype DateStyle =
    | TwelveHour
    | TwentyFourHour
    | System
    | Custom(start24Hour: int, end24Hour: int, timeStrings: seq<string>)

  /** Number of hour rows the ruler shows. */
  function Count(d: DateStyle): nat {
    match d
    case Custom(_, _, timeStrings) => |timeStrings|
    case _ => 24
  }

  /** Row of the ruler on which a wall-clock hour is drawn. */
  function Real24Hour(d: DateStyle, original24Hour: int): int {
    match d
    case Custom(start24Hour, _, _) => original24Hour - start24Hour
    case _ => original24Hour
  }

  /** First wall-clock hour the ruler shows. */
  function FirstHour(d: DateStyle): int {
    if d.Custom? then d.start24Hour else 0
  }

  /**
   Whether an event lies in the displayed hour window. Only the hour
   components are compared; `hourOf` stands for `calendar.component(.hour, from:)`.
   */
  function InHourRange(d: DateStyle, startDate: int, endDate: int, hourOf: int -> int): bool {
    match d
    case Custom(start24Hour, end24Hour, _) =>
      hourOf(startDate) >= start24Hour && hourOf(endDate) <= end24Hour
    case _ => true
  }

  /** The ruler shows the hours FirstHour .. FirstHour + Count - 1 on rows 0 .. Count - 1,
      one hour per row, and Real24Hour undoes the shift by FirstHour. */
  lemma HourRows(d: DateStyle, h: int)
    ensures Real24Hour(d, h) == h - FirstHour(d)
    ensures 0 <= Real24Hour(d, h) < Count(d) <==> FirstHour(d) <= h < FirstHour(d) + Count(d)
    ensures !d.Custom? ==> Count(d) == 24 && FirstHour(d) == 0
    ensures d.Custom? ==> Count(d) == |d.timeStrings|
  {
  }

  /** Outside a custom window every event is in range; inside one, an event is in range
      exactly when its start hour falls on or after row 0 and its end hour on or before
      the row of `end24Hour`. Minutes play no part. */
  lemma InHourRangeByRows(d: DateStyle, startDate: int, endDate: int, hourOf: int -> int)
    ensures !d.Custom? ==> InHourRange(d, startDate, endDate, hourOf)
    ensures d.Custom? ==>
      (InHourRange(d, startDate, endDate, hourOf) <==>
        Real24Hour(d, hourOf(startDate)) >= 0 &&
        Real24Hour(d, hourOf(endDate)) <= Real24Hour(d, d.end24Hour))
  {
  }

  /** A view's `CGRect` frame. */
  datatype Frame = Frame(x: real, y: real, width: real, height: real)

  /** `CGRect.zero`. */
  const ZeroFrame: Frame := Frame(0.0, 0.0, 0.0, 0.0)

  /** One configured lane: a name and a width. */
  datatype Lane = Lane(name: string, width: real)

  /** The timeline fields the layout reads; colours and fonts are left out. */
  datatype TimelineStyle = TimelineStyle(
    dateStyle: DateStyle,
    minimumEventDurationInMinutesWhileEditing: int,
    splitMinuteInterval: int,
    verticalDiff: real,
    verticalInset: real,
    leadingInset: real,
    eventGap: real,
    group: seq<Lane>,
    fixWidthGroupCount: int)

  /** The values `TimelineStyle()` starts with. */
  function DefaultTimelineStyle(): TimelineStyle {
    TimelineStyle(System, 30, 15, 100.0, 10.0, 53.0, 0.0, [], 7)
  }

  /** Sum of the lane widths, accumulated left to right like `reduce(0, +)`. */
  function SumWidths(lanes: seq<Lane>): real {
    if |lanes| == 0 then 0.0 else SumWidths(lanes[..|lanes| - 1]) + lanes[|lanes| - 1].width
  }

  /** Element `index` when `index` is one of the collection's indices (`Collection[safe:]`). */
  function SafeGet<T>(s: seq<T>, index: int): (r: Option<T>)
    ensures r.Some? <==> 0 <= index < |s|
    ensures r.Some? ==> r.value == s[index]
  {
    if 0 <= index < |s| then Some(s[index]) else None
  }

  function GroupCount(style: TimelineStyle): nat {
    |style.group|
  }

  function TotalGroupWidth(style: TimelineStyle): real {
    SumWidths(style.group)
  }

  function ContentWidth(style: TimelineStyle): real {
    style.leadingInset + TotalGroupWidth(style)
  }

  /** Width of lane `index`, or 0 for an index that names no lane (negative ones included). */
  function GroupWidth(style: TimelineStyle, index: int): (w: real)
    ensures 0 <= index < |style.group| ==> w == style.group[index].width
    ensures !(0 <= index < |style.group|) ==> w == 0.0
  {
    match SafeGet(style.group, index)
    case Some(lane) => lane.width
    case None => 0.0
  }

  /**
   Left edge of lane `index`, measured from the end of the leading inset: the sum
   of the widths of the first `index` lanes (`prefix(index)`, which keeps the whole
   list when `index` exceeds it and traps when `index` is negative).
   */
  function GroupX(style: TimelineStyle, index: int): real
    requires index >= 0
  {
    SumWidths(style.group[..if index <= |style.group| then index else |style.group|])
  }

  /** The lane offsets form a prefix sum: they start at 0, grow by one lane width per
      lane, and stay at the total width past the last lane. The leading inset is not in them. */
  lemma GroupXPrefixSum(style: TimelineStyle, i: nat)
    ensures GroupX(style, 0) == 0.0
    ensures i < GroupCount(style) ==> GroupX(style, i + 1) == GroupX(style, i) + GroupWidth(style, i)
    ensures i >= GroupCount(style) ==> GroupX(style, i) == TotalGroupWidth(style)
  {
    var g := style.group;
    if i < |g| {
      assert g[..i + 1][..i] == g[..i];
    } else {
      assert g[..|g|] == g;
    }
  }

  /** The content is the leading inset followed by all lanes: its width is the inset
      plus the right edge of the last lane. */
  lemma ContentWidthIsLastEdge(style: TimelineStyle)
    ensures ContentWidth(style) == style.leadingInset + GroupX(style, GroupCount(style))
    ensures GroupCount(style) == 0 ==> ContentWidth(style) == style.leadingInset
  {
    assert style.group[..|style.group|] == style.group;
  }

  predicate NonNegativeWidths(lanes: seq<Lane>) {
    forall i :: 0 <= i < |lanes| ==> lanes[i].width >= 0.0
  }

  /** With non-negative widths a longer prefix never sums to less. */
  lemma {:induction false} SumWidthsPrefixMonotone(lanes: seq<Lane>, i: nat, j: nat)
    requires NonNegativeWidths(lanes)
    requires i <= j <= |lanes|
    ensures SumWidths(lanes[..i]) <= SumWidths(lanes[..j])
    decreases j - i
  {
    if i < j {
      SumWidthsPrefixMonotone(lanes, i, j - 1);
      assert lanes[..j][..j - 1] == lanes[..j - 1];
    }
  }

  /** With non-negative widths lanes never move left as the index grows, and every
      lane ends within the total width. */
  lemma GroupXMonotone(style: TimelineStyle, i: nat, j: nat)
    requires NonNegativeWidths(style.group)
    requires i <= j
    ensures GroupX(style, i) <= GroupX(style, j)
    ensures GroupX(style, i) + GroupWidth(style, i) <= TotalGroupWidth(style)
  {
    var g := style.group;
    var n := |g|;
    var ci := if i <= n then i else n;
    var cj := if j <= n then j else n;
    SumWidthsPrefixMonotone(g, ci, cj);
    assert g[..n] == g;
    if i < n {
      GroupXPrefixSum(style, i);
      SumWidthsPrefixMonotone(g, i + 1, n);
    } else {
      SumWidthsPrefixMonotone(g, n, n);
    }
  }
}
