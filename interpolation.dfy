/**
 * The colour of an instant (`getSLForDate`): the query is placed among the
 * palette's instants by a stable sort, its neighbours are chosen cyclically,
 * and saturation and lightness are interpolated linearly between their table
 * colours and rounded.
 */
module Interpolation {
  import opened Sorting
  import opened Palette
  import opened Clock

  /** An element of the list the lookup sorts: a palette entry, or the query entry named "now". */
  datatype Slot = Listed(entry: Entry) | Now(date: int)

  function SlotDate(x: Slot): int {
    match x
    case Listed(e) => e.date
    case Now(d) => d
  }

  /** The palette entries as elements of the lookup's list. */
  function Slots(times: seq<Entry>): seq<Slot> {
    seq(|times|, i requires 0 <= i < |times| => Listed(times[i]))
  }

  /** `findIndex` for the entry named "now": the first position holding it, or -1. */
  function FindNow(s: seq<Slot>): (i: int)
    ensures -1 <= i < |s|
    ensures 0 <= i ==> s[i].Now? && forall j :: 0 <= j < i ==> !s[j].Now?
    ensures i == -1 ==> forall j :: 0 <= j < |s| ==> !s[j].Now?
  {
    if s == [] then -1
    else if s[0].Now? then 0
    else
      var i := FindNow(s[1..]);
      if i == -1 then -1 else i + 1
  }

  /**
   * The position of the query in the sorted list.  Because the query is
   * appended last and the sort is stable, it is the number of palette entries
   * at or before the query, whatever the order of the palette.
   */
  function NowIndex(times: seq<Entry>, query: int): (i: int)
    ensures i == CountAtMost(times, EntryDate, query)
    ensures 0 <= i <= |times|
  {
    NowIndexIsCount(times, query);
    FindNow(Sort(Slots(times) + [Now(query)], SlotDate))
  }

  lemma {:induction false} CountSlots(times: seq<Entry>, query: int)
    ensures CountAtMost(Slots(times), SlotDate, query) == CountAtMost(times, EntryDate, query)
  {
    if times != [] {
      assert Slots(times)[1..] == Slots(times[1..]);
      CountSlots(times[1..], query);
    }
  }

  /** `findIndex` finds the query behind a prefix of palette entries. */
  lemma {:induction false} FindNowAfterListed(a: seq<Slot>, x: Slot, b: seq<Slot>)
    requires forall j :: 0 <= j < |a| ==> a[j].Listed?
    requires x.Now?
    ensures FindNow(a + [x] + b) == |a|
  {
    var r := a + [x] + b;
    assert r[|a|] == x;
    assert forall j :: 0 <= j < |a| ==> r[j] == a[j];
  }

  /** Sorting the palette never produces the query's entry. */
  lemma {:induction false} SortedSlotsListed(times: seq<Entry>)
    ensures forall j :: 0 <= j < |times| ==> Sort(Slots(times), SlotDate)[j].Listed?
  {
    var xs := Slots(times);
    var sorted := Sort(xs, SlotDate);
    forall j | 0 <= j < |sorted| ensures sorted[j].Listed? {
      assert sorted[j] in multiset(xs);
    }
  }

  lemma {:induction false} NowIndexIsCount(times: seq<Entry>, query: int)
    ensures FindNow(Sort(Slots(times) + [Now(query)], SlotDate)) == CountAtMost(times, EntryDate, query)
  {
    var xs, now := Slots(times), Now(query);
    assert (xs + [now])[..|xs|] == xs;
    var sorted := Sort(xs, SlotDate);
    assert Sort(xs + [now], SlotDate) == Insert(sorted, now, SlotDate);
    InsertAt(sorted, now, SlotDate);
    var c := CountAtMost(sorted, SlotDate, query);
    SortedSlotsListed(times);
    FindNowAfterListed(sorted[..c], now, sorted[c..]);
    CountSort(xs, SlotDate, query);
    CountSlots(times, query);
  }

  /** The entry before the query, wrapping to the last entry when the query comes first. */
  function PrevIndex(n: nat, i: int): (k: nat)
    requires 0 < n && 0 <= i <= n
    ensures k < n
    ensures k == (i - 1) % n
  {
    if i == 0 then n - 1 else i - 1
  }

  /** The entry after the query, wrapping to the first entry when the query comes last. */
  function NextIndex(n: nat, i: int): (k: nat)
    requires 0 < n && 0 <= i <= n
    ensures k < n
    ensures k == i % n
  {
    if i == n then 0 else i
  }

  function Prev(times: seq<Entry>, query: int): Entry
    requires |times| > 0
  {
    times[PrevIndex(|times|, NowIndex(times, query))]
  }

  function Next(times: seq<Entry>, query: int): Entry
    requires |times| > 0
  {
    times[NextIndex(|times|, NowIndex(times, query))]
  }

  /**
   * `differenceInMinutes(later, earlier)`: whole minutes between two
   * millisecond instants, truncated toward zero.
   */
  function DiffMinutes(later: int, earlier: int): (r: int)
    ensures later >= earlier ==> 0 <= r * MsPerMinute <= later - earlier < r * MsPerMinute + MsPerMinute
    ensures later < earlier ==> r * MsPerMinute - MsPerMinute < later - earlier <= r * MsPerMinute <= 0
  {
    var d := later - earlier;
    if d >= 0 then d / MsPerMinute else -((-d) / MsPerMinute)
  }

  lemma {:induction false} DiffMinutesMonotone(a: int, b: int, earlier: int)
    requires a <= b
    ensures DiffMinutes(a, earlier) <= DiffMinutes(b, earlier)
  {
    var ra, rb := DiffMinutes(a, earlier), DiffMinutes(b, earlier);
    if a >= earlier {
      assert ra * MsPerMinute < rb * MsPerMinute + MsPerMinute;
    } else if b < earlier {
      assert ra * MsPerMinute - MsPerMinute < rb * MsPerMinute;
    }
  }

  /** The divisor of the interpolation ratio: the minutes from the previous entry to the next. */
  function Divisor(times: seq<Entry>, query: int): int
    requires |times| > 0
  {
    DiffMinutes(Next(times, query).date, Prev(times, query).date)
  }

  /** How far the query lies from the previous entry, as a fraction of the way to the next. */
  function Percent(times: seq<Entry>, query: int): real
    requires |times| > 0 && Divisor(times, query) != 0
  {
    DiffMinutes(query, Prev(times, query).date) as real / Divisor(times, query) as real
  }

  /** `Math.round`: the nearest integer, halves rounded up. */
  function Round(x: real): (r: int)
    ensures r as real - 0.5 <= x < r as real + 0.5
  {
    (x + 0.5).Floor
  }

  /** The rounded point a fraction `p` of the way from `a` to `b`. */
  function Lerp(a: int, b: int, p: real): int {
    Round(a as real + (b - a) as real * p)
  }

  /** `getSLForDate`: the interpolated saturation and lightness at `query`. */
  function SLForDate(times: seq<Entry>, query: int): (r: SL)
    requires |times| > 0 && Divisor(times, query) != 0
    ensures r.s == r.l
  {
    var prev, next := Target(Prev(times, query).name), Target(Next(times, query).name);
    var p := Percent(times, query);
    SL(Lerp(prev.s, next.s, p), Lerp(prev.l, next.l, p))
  }

  /**
   * On an ascending palette the entries before the query's position are
   * exactly those at or before the query: the previous entry (when it does
   * not wrap) is the latest at or before it, the next (when it does not
   * wrap) the earliest after it.
   */
  lemma {:induction false} Bracket(times: seq<Entry>, query: int)
    requires SortedBy(times, EntryDate)
    ensures forall j :: 0 <= j < |times| ==> (times[j].date <= query <==> j < NowIndex(times, query))
  {
    CountSplits(times, EntryDate, query);
  }

  lemma {:induction false} RatioOfZero(den: int)
    requires den != 0
    ensures 0 as real / den as real == 0.0
  {
    var p := 0 as real / den as real;
    assert p * den as real == 0.0;
  }

  lemma {:induction false} RatioWithinUnit(num: int, den: int)
    requires 0 <= num <= den && 0 < den
    ensures 0.0 <= num as real / den as real <= 1.0
  {
    var p := num as real / den as real;
    assert p * den as real == num as real;
  }

  lemma {:induction false} RatioAtLeastOne(num: int, den: int)
    requires num <= den < 0
    ensures num as real / den as real >= 1.0
  {
    var p := num as real / den as real;
    assert p * den as real == num as real;
  }

  lemma {:induction false} RatioAtMostZero(num: int, den: int)
    requires 0 <= num && den < 0
    ensures num as real / den as real <= 0.0
  {
    var p := num as real / den as real;
    assert p * den as real == num as real;
  }

  lemma {:induction false} LerpAtZero(a: int, b: int)
    ensures Lerp(a, b, 0.0) == a
  {
    assert a as real + (b - a) as real * 0.0 == a as real;
  }

  /** With a fraction within [0, 1] the rounded value stays between the two ends. */
  lemma {:induction false} LerpBetween(a: int, b: int, p: real)
    requires 0.0 <= p <= 1.0
    ensures a <= b ==> a <= Lerp(a, b, p) <= b
    ensures b <= a ==> b <= Lerp(a, b, p) <= a
  {
    var d := (b - a) as real;
    if a <= b {
      assert 0.0 <= d * p <= d;
    } else {
      assert d <= d * p <= 0.0;
    }
  }

  /**
   * A query at an entry's instant (the last entry with that instant) takes
   * that entry as the previous one, has fraction 0 and gets exactly the
   * entry's table colour.
   */
  lemma {:induction false} ExactHit(times: seq<Entry>, k: nat, query: int)
    requires SortedBy(times, EntryDate)
    requires k < |times| && times[k].date == query
    requires k + 1 == |times| || query < times[k + 1].date
    requires Divisor(times, query) != 0
    ensures PrevIndex(|times|, NowIndex(times, query)) == k
    ensures Percent(times, query) == 0.0
    ensures SLForDate(times, query) == Target(times[k].name)
  {
    var i := NowIndex(times, query);
    Bracket(times, query);
    assert k < i;
    assert k + 1 < |times| ==> !(k + 1 < i);
    assert i == k + 1;
    assert Prev(times, query) == times[k];
    assert DiffMinutes(query, times[k].date) == 0;
    RatioOfZero(Divisor(times, query));
    var p := Percent(times, query);
    assert p == 0.0;
    var a, b := Target(times[k].name), Target(Next(times, query).name);
    LerpAtZero(a.s, b.s);
    LerpAtZero(a.l, b.l);
  }

  /**
   * Between two neighbouring entries at least a minute apart the fraction is
   * within [0, 1] and the colour never overshoots either neighbour's.
   */
  lemma {:induction false} NoOvershoot(times: seq<Entry>, k: nat, query: int)
    requires SortedBy(times, EntryDate)
    requires k + 1 < |times|
    requires times[k].date <= query < times[k + 1].date
    requires times[k + 1].date - times[k].date >= MsPerMinute
    ensures PrevIndex(|times|, NowIndex(times, query)) == k
    ensures NextIndex(|times|, NowIndex(times, query)) == k + 1
    ensures Divisor(times, query) >= 1
    ensures 0.0 <= Percent(times, query) <= 1.0
    ensures var a, b, c := Target(times[k].name).s, Target(times[k + 1].name).s, SLForDate(times, query).s;
      (a <= b ==> a <= c <= b) && (b <= a ==> b <= c <= a)
  {
    Bracket(times, query);
    assert NowIndex(times, query) == k + 1;
    var prev, next := times[k].date, times[k + 1].date;
    DiffMinutesMonotone(query, next, prev);
    var num, den := DiffMinutes(query, prev), DiffMinutes(next, prev);
    assert 0 <= num <= den && 1 <= den;
    var p := num as real / den as real;
    RatioWithinUnit(num, den);
    LerpBetween(Target(times[k].name).s, Target(times[k + 1].name).s, p);
  }

  /**
   * A query before the first entry pairs the last entry with the first, and
   * the fraction is at least 1: the colour is not clamped to the pair.
   */
  lemma {:induction false} WrapBeforeFirst(times: seq<Entry>, query: int)
    requires SortedBy(times, EntryDate)
    requires |times| > 0 && query < times[0].date
    requires times[|times| - 1].date - times[0].date >= MsPerMinute
    ensures NowIndex(times, query) == 0
    ensures Prev(times, query) == times[|times| - 1] && Next(times, query) == times[0]
    ensures Divisor(times, query) <= -1
    ensures Percent(times, query) >= 1.0
  {
    Bracket(times, query);
    assert NowIndex(times, query) == 0;
    var first, last := times[0].date, times[|times| - 1].date;
    DiffMinutesMonotone(query, first, last);
    var num, den := DiffMinutes(query, last), DiffMinutes(first, last);
    assert num <= den <= -1;
    RatioAtLeastOne(num, den);
  }

  /**
   * A query at or after the last entry pairs the last entry with the first,
   * and the fraction is at most 0: the colour moves away from the first entry's.
   */
  lemma {:induction false} WrapAfterLast(times: seq<Entry>, query: int)
    requires SortedBy(times, EntryDate)
    requires |times| > 0 && times[|times| - 1].date <= query
    requires times[|times| - 1].date - times[0].date >= MsPerMinute
    ensures NowIndex(times, query) == |times|
    ensures Prev(times, query) == times[|times| - 1] && Next(times, query) == times[0]
    ensures Divisor(times, query) <= -1
    ensures Percent(times, query) <= 0.0
  {
    Bracket(times, query);
    assert NowIndex(times, query) == |times|;
    var first, last := times[0].date, times[|times| - 1].date;
    var num, den := DiffMinutes(query, last), DiffMinutes(first, last);
    assert 0 <= num && den <= -1;
    RatioAtMostZero(num, den);
  }

  /** Sunrise at 06:00 (55) and solar noon at 12:00 (85) give 70 at 09:00. */
  lemma MorningExample()
    ensures var times := [Tagged(Stamp(Sunrise, 6 * MsPerHour)), Tagged(Stamp(SolarNoon, 12 * MsPerHour))];
      SLForDate(times, 9 * MsPerHour) == SL(70, 70)
  {
    var times := [Tagged(Stamp(Sunrise, 6 * MsPerHour)), Tagged(Stamp(SolarNoon, 12 * MsPerHour))];
    var query := 9 * MsPerHour;
    assert SortedBy(times, EntryDate);
    Bracket(times, query);
    assert times[0].date <= query < times[1].date;
    assert NowIndex(times, query) == 1;
    assert DiffMinutes(query, times[0].date) == 180;
    assert DiffMinutes(times[1].date, times[0].date) == 360;
    assert Percent(times, query) == 0.5;
  }

  /**
   * After the last entry the unclamped fraction runs backwards: with the
   * nadir at 12:00 (15) and night at 13:00 (25), 18:00 gets saturation 75,
   * far outside both entries' colours.
   */
  lemma WrapOvershootExample()
    ensures var times := [Tagged(Stamp(Nadir, 12 * MsPerHour)), Tagged(Stamp(Night, 13 * MsPerHour))];
      SLForDate(times, 18 * MsPerHour) == SL(75, 75)
  {
    var times := [Tagged(Stamp(Nadir, 12 * MsPerHour)), Tagged(Stamp(Night, 13 * MsPerHour))];
    var query := 18 * MsPerHour;
    assert SortedBy(times, EntryDate);
    Bracket(times, query);
    assert times[0].date <= query && times[1].date <= query;
    assert NowIndex(times, query) == 2;
    assert DiffMinutes(query, times[1].date) == 300;
    assert DiffMinutes(times[0].date, times[1].date) == -60;
    assert Percent(times, query) == -5.0;
  }
}
