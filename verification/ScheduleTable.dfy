/** The weekly grid of one schedule table: the period timetable, block
    placement, block colours, the callback payloads and the drag ids.
    `DAY_LABELS` and `CellSize` (src/basic/constants.ts) are parameters. */
module ScheduleTable {
  import opened Types
  import opened Builtins

  const PERIOD_COUNT: nat := 24
  /** Periods before this index are the 30-minute day periods. */
  const DAY_PERIODS: nat := 18
  const HEADER_WIDTH: int := 120
  const HEADER_HEIGHT: int := 40

  /** Start of period k (0-based), in minutes after the first period starts. */
  function PeriodStart(k: nat): nat {
    if k < DAY_PERIODS then 30 * k else DAY_PERIODS * 30 + 55 * (k - DAY_PERIODS)
  }

  /** Length of period k in minutes. */
  function PeriodLength(k: nat): nat {
    if k < DAY_PERIODS then 30 else 50
  }

  /** Every period ends no later than any later period starts, so starts
      strictly increase and no two periods overlap. */
  lemma PeriodsDoNotOverlap(j: nat, k: nat)
    requires j < k < PERIOD_COUNT
    ensures PeriodStart(j) + PeriodLength(j) <= PeriodStart(k)
    ensures PeriodStart(j) < PeriodStart(k)
  {
  }

  /** The first 18 periods tile the day without gaps; the evening periods
      leave a 5-minute break before the next one. */
  lemma PeriodGaps(k: nat)
    requires k + 1 < PERIOD_COUNT
    ensures k + 1 < DAY_PERIODS + 1 ==> PeriodStart(k) + PeriodLength(k) == PeriodStart(k + 1)
    ensures k >= DAY_PERIODS ==> PeriodStart(k) + PeriodLength(k) + 5 == PeriodStart(k + 1)
  {
  }

  /** `TIMES`: each period's "start~end" label, where `formatMinutes` is
      `parseHnM` applied to a minute offset. Built as the source builds it,
      from the 18 day periods and the 6 evening periods. */
  function Times(formatMinutes: nat -> string): (r: seq<string>)
    ensures |r| == PERIOD_COUNT
    ensures forall k :: 0 <= k < PERIOD_COUNT ==>
      r[k] == formatMinutes(PeriodStart(k)) + "~" + formatMinutes(PeriodStart(k) + PeriodLength(k))
  {
    var day := seq(18, k requires 0 <= k < 18 => 0 + k * 30);
    var evening := seq(6, k requires 0 <= k < 6 => 18 * 30 + k * 55);
    seq(18, k requires 0 <= k < 18 => formatMinutes(day[k]) + "~" + formatMinutes(day[k] + 30))
    + seq(6, k requires 0 <= k < 6 => formatMinutes(evening[k]) + "~" + formatMinutes(evening[k] + 50))
  }

  const COLORS: seq<string> := ["#fdd", "#ffd", "#dff", "#ddf", "#fdf", "#dfd"]

  /** The six colours are pairwise different. */
  lemma ColorsDistinct()
    ensures |COLORS| == 6 && NoDuplicates(COLORS)
  {
  }

  /** `schedules.map(({ lecture }) => lecture.id)` */
  function LectureIds(schedules: seq<Schedule>): seq<string> {
    seq(|schedules|, i requires 0 <= i < |schedules| => schedules[i].lecture.id)
  }

  /** `getColor`: the colour at the id's position among the table's distinct
      lecture ids, cycling through six colours. An id not on the table gives
      `colors[-1]`, which is undefined: None. */
  function GetColor(schedules: seq<Schedule>, lectureId: string): (r: Option<string>)
    ensures r.Some? <==> lectureId in LectureIds(schedules)
    ensures r.Some? ==> r.value in COLORS
  {
    var i := IndexOf(Distinct(LectureIds(schedules)), lectureId);
    if i < 0 then None else Some(COLORS[i % |COLORS|])
  }

  /** The colour of a lecture is fixed by how many distinct lectures were
      placed before its first schedule on the table. */
  lemma ColorByFirstOccurrence(schedules: seq<Schedule>, i: nat)
    requires i < |schedules|
    requires forall j :: 0 <= j < i ==> schedules[j].lecture.id != schedules[i].lecture.id
    ensures GetColor(schedules, schedules[i].lecture.id)
         == Some(COLORS[|Distinct(LectureIds(schedules)[..i])| % 6])
  {
    var ids := LectureIds(schedules);
    assert ids[i] !in ids[..i];
    DistinctIndexOfFirst(ids, i);
  }

  /** The p-th distinct lecture of a table gets colour p mod 6. */
  lemma ColorOfDistinctPosition(schedules: seq<Schedule>, p: nat)
    requires p < |Distinct(LectureIds(schedules))|
    ensures GetColor(schedules, Distinct(LectureIds(schedules))[p]) == Some(COLORS[p % 6])
  {
    IndexOfUnique(Distinct(LectureIds(schedules)), p);
  }

  lemma SmallModSix(a: nat)
    requires a < 6
    ensures a % 6 == a
  {
  }

  /** The first six distinct lectures of a table get six different colours. */
  lemma FirstSixLecturesDistinctColors(schedules: seq<Schedule>, a: nat, b: nat)
    requires a < b < |Distinct(LectureIds(schedules))| && b < 6
    ensures var d := Distinct(LectureIds(schedules));
      GetColor(schedules, d[a]) != GetColor(schedules, d[b])
  {
    var d := Distinct(LectureIds(schedules));
    ColorOfDistinctPosition(schedules, a);
    ColorOfDistinctPosition(schedules, b);
    SmallModSix(a);
    SmallModSix(b);
    var ca, cb := GetColor(schedules, d[a]), GetColor(schedules, d[b]);
    assert ca == Some(COLORS[a]) && cb == Some(COLORS[b]);
    ColorsDistinct();
    assert COLORS[a] != COLORS[b];
  }

  /** Two distinct lectures six places apart share a colour. */
  lemma ColorsRepeatEverySix(schedules: seq<Schedule>, a: nat)
    requires a + 6 < |Distinct(LectureIds(schedules))|
    ensures var d := Distinct(LectureIds(schedules));
      GetColor(schedules, d[a]) == GetColor(schedules, d[a + 6])
  {
    ColorOfDistinctPosition(schedules, a);
    ColorOfDistinctPosition(schedules, a + 6);
    assert (a + 6) % 6 == a % 6;
  }

  /** `deleteButtonHandlers`: the handler of the i-th schedule reports that
      schedule's day and first period. */
  function DeleteButtonPayloads(schedules: seq<Schedule>): (r: seq<TimeInfo>)
    requires forall i :: 0 <= i < |schedules| ==> |schedules[i].range| > 0
    ensures |r| == |schedules|
    ensures forall i :: 0 <= i < |r| ==> r[i].day == schedules[i].day && r[i].time in schedules[i].range
    ensures forall i :: 0 <= i < |r| ==> r[i].time == schedules[i].range[0]
  {
    seq(|schedules|, i requires 0 <= i < |schedules| => TimeInfo(schedules[i].day, schedules[i].range[0]))
  }

  /** The click handler of the empty cell in period row `timeIndex` (0-based)
      and day column `dayIndex`. */
  function CellClickPayload(dayLabels: seq<string>, timeIndex: nat, dayIndex: nat): (r: TimeInfo)
    requires timeIndex < PERIOD_COUNT && dayIndex < |dayLabels|
    ensures r.day in dayLabels && 1 <= r.time <= PERIOD_COUNT
    ensures r.day == dayLabels[dayIndex] && r.time - 1 == timeIndex
  {
    TimeInfo(dayLabels[dayIndex], timeIndex + 1)
  }

  /** Pixel width and height of one grid cell. */
  datatype CellSize = CellSize(width: int, height: int)

  /** An absolutely positioned block, in pixels. */
  datatype Box = Box(left: int, top: int, width: int, height: int)

  /** The `DraggableSchedule` box of a schedule on `day` over `range`. A day
      missing from the labels has index -1. */
  function ScheduleBox(dayLabels: seq<string>, cell: CellSize, day: string, range: seq<int>): Box
    requires |range| > 0
  {
    var leftIndex := IndexOf(dayLabels, day);
    var topIndex := range[0] - 1;
    var size := |range|;
    Box(HEADER_WIDTH + cell.width * leftIndex + 1,
        HEADER_HEIGHT + (topIndex * cell.height + 1),
        cell.width - 1,
        cell.height * size - 1)
  }

  /** Left edge of day column d (0-based) and top edge of period row p
      (1-based) in the grid `120px repeat(days, W)` x `40px repeat(24, H)`. */
  function ColumnLeft(cell: CellSize, d: int): int { HEADER_WIDTH + cell.width * d }
  function RowTop(cell: CellSize, p: int): int { HEADER_HEIGHT + cell.height * (p - 1) }

  /** The periods r, r+1, ..., r+k-1. */
  predicate Contiguous(range: seq<int>) {
    forall j :: 0 <= j < |range| ==> range[j] == range[0] + j
  }

  /** A schedule on day d covering periods r..r+k-1 lies inside day column d
      and rows r through r+k-1, one pixel in from the top-left grid lines. */
  lemma {:induction false} BoxInsideItsCells(dayLabels: seq<string>, cell: CellSize, d: nat, range: seq<int>)
    requires NoDuplicates(dayLabels) && d < |dayLabels|
    requires |range| > 0 && Contiguous(range)
    requires cell.width > 0 && cell.height > 0
    ensures var b := ScheduleBox(dayLabels, cell, dayLabels[d], range);
      && b.left == ColumnLeft(cell, d) + 1
      && b.left + b.width == ColumnLeft(cell, d + 1)
      && b.top == RowTop(cell, range[0]) + 1
      && b.top + b.height == RowTop(cell, range[|range| - 1] + 1)
  {
    IndexOfUnique(dayLabels, d);
    var r := range[0];
    var k := |range|;
    assert range[k - 1] + 1 == r + k;
    assert cell.width * (d + 1) == cell.width * d + cell.width;
    assert cell.height * (r + k - 1) == cell.height * (r - 1) + cell.height * k;
    assert (r - 1) * cell.height == cell.height * (r - 1);
  }

  /** Schedules on neighbouring days sit exactly one column width apart. */
  lemma AdjacentDaysOneColumnApart(dayLabels: seq<string>, cell: CellSize, d: nat, range: seq<int>)
    requires NoDuplicates(dayLabels) && d + 1 < |dayLabels| && |range| > 0
    ensures ScheduleBox(dayLabels, cell, dayLabels[d + 1], range).left
         == ScheduleBox(dayLabels, cell, dayLabels[d], range).left + cell.width
  {
    IndexOfUnique(dayLabels, d);
    IndexOfUnique(dayLabels, d + 1);
    assert cell.width * (d + 1) == cell.width * d + cell.width;
  }

  /** A block's height grows by one row height per period it spans. */
  lemma BoxHeightPerPeriod(dayLabels: seq<string>, cell: CellSize, day: string, range: seq<int>, extra: seq<int>)
    requires |range| > 0
    ensures ScheduleBox(dayLabels, cell, day, range + extra).height
         == ScheduleBox(dayLabels, cell, day, range).height + cell.height * |extra|
  {
    assert (range + extra)[0] == range[0];
    assert cell.height * (|range| + |extra|) == cell.height * |range| + cell.height * |extra|;
  }

  /** `${tableId}:${index}`: the draggable id of the index-th schedule. */
  function DragId(tableId: string, index: nat): (r: string)
    ensures |r| > |tableId| && r[..|tableId|] == tableId && r[|tableId|] == ':'
    ensures ':' !in r[|tableId| + 1..]
  {
    var digits := DecimalString(index);
    var r := tableId + ":" + digits;
    assert r[|tableId| + 1..] == digits;
    r
  }

  /** Both halves of a drag id can be read back: the table id before the
      separator and the schedule index from the digits after it. */
  lemma DragIdRoundTrip(tableId: string, index: nat)
    ensures var id := DragId(tableId, index);
      && id[..|tableId|] == tableId
      && (forall i :: |tableId| < i < |id| ==> '0' <= id[i] <= '9')
      && DigitsValue(id[|tableId| + 1..]) == index
  {
    var id := DragId(tableId, index);
    assert id[|tableId| + 1..] == DecimalString(index);
    DecimalStringRoundTrip(index);
  }
}
