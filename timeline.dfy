/**
 * The day timeline beside the text: one coloured segment per palette entry
 * plus a leading night segment from midnight, placed on a ruler of 2400
 * packed-clock units, and the column of 24 hour labels.
 */
module Timeline {
  import opened Sorting
  import opened Palette
  import opened Clock
  import opened Interpolation

  /** The ruler's full height in packed-clock units: 100% of the timeline. */
  const RulerUnits := 2400

  /** A segment's offset from the top and its height, in packed-clock units. */
  datatype Segment = Segment(top: int, height: int)

  /** A segment's size as the percentage the page writes into its style. */
  function AsPercent(units: int): real {
    units as real / RulerUnits as real * 100.0
  }

  /** Percentages of the ruler add up as the units they measure do. */
  lemma {:induction false} AsPercentAdditive(a: int, b: int)
    ensures AsPercent(a + b) == AsPercent(a) + AsPercent(b)
  {
  }

  /** The packed clock of every palette entry. */
  function Clocks(times: seq<Entry>, midnight: int): (c: seq<int>)
    ensures |c| == |times|
    ensures forall i :: 0 <= i < |c| ==> 0 <= c[i] < RulerUnits
  {
    seq(|times|, i requires 0 <= i < |times| => Packed(MinuteOfDay(times[i].date, midnight)))
  }

  /** The segment of entry `i`: from its clock to the next entry's, or to the end of the ruler. */
  function EntrySegment(c: seq<int>, i: int): Segment
    requires 0 <= i < |c|
  {
    var end := if i == |c| - 1 then RulerUnits else c[i + 1];
    Segment(c[i], end - c[i])
  }

  /**
   * The leading night segment followed by one segment per entry.  The
   * segments meet end to end, from the top of the ruler to its bottom.
   */
  function Layout(times: seq<Entry>, midnight: int): (segs: seq<Segment>)
    requires |times| > 0
    ensures |segs| == |times| + 1
    ensures segs[0].top == 0
    ensures forall i :: 0 <= i < |times| ==> segs[i].top + segs[i].height == segs[i + 1].top
    ensures segs[|times|].top + segs[|times|].height == RulerUnits
    ensures forall i :: 0 <= i < |times| ==> segs[i + 1].top == Clocks(times, midnight)[i]
  {
    var c := Clocks(times, midnight);
    [Segment(0, c[0])] + seq(|c|, i requires 0 <= i < |c| => EntrySegment(c, i))
  }

  /** The colour table row each segment shows: night for the leading one, else the entry's phase. */
  function SegmentColours(times: seq<Entry>): (r: seq<SL>)
    ensures |r| == |times| + 1
    ensures forall i :: 0 <= i < |r| ==> r[i].s == r[i].l && 15 <= r[i].s <= 85
  {
    [Target(Night)] + seq(|times|, i requires 0 <= i < |times| => Target(times[i].name))
  }

  /**
   * On a built palette, the segment starting at entry `i`'s clock shows the
   * colour stored in entry `i`, and the leading segment shows the night colour.
   */
  lemma {:induction false} PaletteSegmentColours(stamps: seq<Stamp>, midnight: int)
    requires |stamps| > 0
    ensures var p := BuildPalette(stamps);
      var segs, cols := Layout(p, midnight), SegmentColours(p);
      cols[0] == Target(Night) && segs[0].top == 0 &&
      forall i :: 0 <= i < |p| ==> segs[i + 1].top == Clocks(p, midnight)[i] && cols[i + 1] == SL(p[i].s, p[i].l)
  {
  }

  /**
   * A segment shows the background colour of its entry's own instant: on an
   * ascending palette, the colour of the segment of entry `k` (the last entry
   * with its instant) is what the colour lookup gives at that instant.
   */
  lemma {:induction false} SegmentShowsBackground(times: seq<Entry>, midnight: int, k: nat)
    requires SortedBy(times, EntryDate)
    requires k < |times| && (k + 1 == |times| || times[k].date < times[k + 1].date)
    requires Divisor(times, times[k].date) != 0
    ensures Layout(times, midnight)[k + 1].top == Clocks(times, midnight)[k]
    ensures SegmentColours(times)[k + 1] == SLForDate(times, times[k].date)
  {
    ExactHit(times, k, times[k].date);
  }

  ghost predicate Contiguous(segs: seq<Segment>) {
    forall i :: 0 <= i < |segs| - 1 ==> segs[i].top + segs[i].height == segs[i + 1].top
  }

  function TotalHeight(segs: seq<Segment>): int {
    if segs == [] then 0 else segs[0].height + TotalHeight(segs[1..])
  }

  function TotalPercent(segs: seq<Segment>): real {
    if segs == [] then 0.0 else AsPercent(segs[0].height) + TotalPercent(segs[1..])
  }

  /** The heights of segments that meet end to end add up to the distance they cover. */
  lemma {:induction false} Telescope(segs: seq<Segment>)
    requires |segs| > 0 && Contiguous(segs)
    ensures TotalHeight(segs) == segs[|segs| - 1].top + segs[|segs| - 1].height - segs[0].top
  {
    if |segs| > 1 {
      assert Contiguous(segs[1..]);
      Telescope(segs[1..]);
    }
  }

  lemma {:induction false} PercentSum(segs: seq<Segment>)
    ensures TotalPercent(segs) == AsPercent(TotalHeight(segs))
  {
    if segs != [] {
      PercentSum(segs[1..]);
      AsPercentAdditive(segs[0].height, TotalHeight(segs[1..]));
    }
  }

  /** The leading segment and the entries' segments fill exactly the whole ruler: 100%. */
  lemma {:induction false} LayoutFillsRuler(times: seq<Entry>, midnight: int)
    requires |times| > 0
    ensures TotalHeight(Layout(times, midnight)) == RulerUnits
    ensures TotalPercent(Layout(times, midnight)) == 100.0
  {
    Telescope(Layout(times, midnight));
    PercentSum(Layout(times, midnight));
  }

  /**
   * No segment has a negative height exactly when the entries' packed clocks
   * never decrease. An entry outside the local day (e.g. a nadir on the
   * previous evening) breaks this.
   */
  lemma {:induction false} HeightsNonNegative(times: seq<Entry>, midnight: int)
    requires |times| > 0
    ensures var segs, c := Layout(times, midnight), Clocks(times, midnight);
      (forall i :: 0 <= i < |segs| ==> segs[i].height >= 0) <==> (forall i :: 0 < i < |c| ==> c[i - 1] <= c[i])
  {
    var segs, c := Layout(times, midnight), Clocks(times, midnight);
    if forall i :: 0 <= i < |segs| ==> segs[i].height >= 0 {
      forall i | 0 < i < |c| ensures c[i - 1] <= c[i] {
        assert segs[i].height >= 0;
      }
    }
  }

  /** An ascending palette within the local day gives never-decreasing packed clocks. */
  lemma {:induction false} ClocksAscendWithinDay(times: seq<Entry>, midnight: int)
    requires SortedBy(times, EntryDate)
    requires forall i :: 0 <= i < |times| ==> midnight <= times[i].date < midnight + MsPerDay
    ensures var c := Clocks(times, midnight);
      forall i, j :: 0 <= i < j < |c| ==> c[i] <= c[j]
  {
    var c := Clocks(times, midnight);
    forall i, j | 0 <= i < j < |c| ensures c[i] <= c[j] {
      var mi, mj := MinuteOfDay(times[i].date, midnight), MinuteOfDay(times[j].date, midnight);
      MinuteOfDayMonotone(times[i].date, times[j].date, midnight);
      PackedOrder(mj, mi);
    }
  }

  datatype Option<T> = None | Some(value: T)

  /** The ruler text at a minute of the day: the `HHmm` text at full hours, nothing otherwise. */
  function ClockLabel(m: int): (r: Option<string>)
    requires 0 <= m < MinutesPerDay
    ensures r.Some? <==> m % 60 == 0
    ensures r.Some? ==> r.value == Pad4(Packed(m))
  {
    EndsWith00AtFullHour(m);
    HHmmIsPackedText(m);
    var text := HHmm(m);
    if EndsWith00(text) then Some(text) else None
  }

  /** `addHours(startOfToday(), index)`. */
  function HourDate(index: int, midnight: int): int {
    midnight + index * MsPerHour
  }

  /** The hour ruler: 24 rows, for the hours 0..23 after the local midnight. */
  function HourRuler(midnight: int): (r: seq<Option<string>>)
    ensures |r| == 24
  {
    seq(24, index requires 0 <= index < 24 => ClockLabel(MinuteOfDay(HourDate(index, midnight), midnight)))
  }

  /** Every row of the ruler is labelled, row `index` with `100 * index` padded to four digits. */
  lemma {:induction false} RulerLabels(midnight: int)
    ensures forall index :: 0 <= index < 24 ==> HourRuler(midnight)[index] == Some(Pad4(100 * index))
  {
    forall index | 0 <= index < 24 ensures HourRuler(midnight)[index] == Some(Pad4(100 * index)) {
      var m := 60 * index;
      assert HourDate(index, midnight) - midnight == m * MsPerMinute;
      assert MinuteOfDay(HourDate(index, midnight), midnight) == m;
      assert Packed(m) == 100 * index;
    }
  }

  /** The 06:00 row is labelled "0600"; a half hour such as 06:30 would get no label. */
  lemma LabelExamples()
    ensures ClockLabel(360) == Some("0600")
    ensures ClockLabel(390) == None
  {
    assert Pad4(Packed(360)) == "0600";
  }
}
