/**
 * The fixed colour table of the solar phases and the construction of the
 * day's palette from the solar instants of one day.
 */
module Palette {
  import opened Sorting

  /** The fourteen solar phases of the sun-position library, one per table row. */
  datatype Phase =
    | Nadir | NightEnd | NauticalDawn | Dawn | Sunrise | SunriseEnd | GoldenHourEnd
    | SolarNoon | GoldenHour | SunsetStart | Sunset | Dusk | NauticalDusk | Night

  /** A saturation/lightness pair, in percent. */
  datatype SL = SL(s: int, l: int)

  /** The table of target colours: saturation equals lightness, both within 15..85. */
  function Target(p: Phase): (t: SL)
    ensures t.s == t.l
    ensures 15 <= t.s <= 85
  {
    match p
    case Nadir => SL(15, 15)
    case NightEnd => SL(25, 25)
    case NauticalDawn => SL(35, 35)
    case Dawn => SL(45, 45)
    case Sunrise => SL(55, 55)
    case SunriseEnd => SL(65, 65)
    case GoldenHourEnd => SL(75, 75)
    case SolarNoon => SL(85, 85)
    case GoldenHour => SL(75, 75)
    case SunsetStart => SL(65, 65)
    case Sunset => SL(55, 55)
    case Dusk => SL(45, 45)
    case NauticalDusk => SL(35, 35)
    case Night => SL(25, 25)
  }

  /**
   * The table is symmetric about solar noon: each evening phase has the
   * colour of the morning phase that mirrors it, and the nadir is the darkest.
   */
  lemma TargetSymmetric()
    ensures Target(NightEnd) == Target(Night)
    ensures Target(NauticalDawn) == Target(NauticalDusk)
    ensures Target(Dawn) == Target(Dusk)
    ensures Target(Sunrise) == Target(Sunset)
    ensures Target(SunriseEnd) == Target(SunsetStart)
    ensures Target(GoldenHourEnd) == Target(GoldenHour)
    ensures forall p :: Target(Nadir).s <= Target(p).s <= Target(SolarNoon).s
  {
  }

  /** One entry of the object the sun-position library returns: a phase and its instant in milliseconds. */
  datatype Stamp = Stamp(name: Phase, date: int)

  /** One palette entry: a phase, its instant, and the table's colour for it. */
  datatype Entry = Entry(name: Phase, date: int, s: int, l: int)

  function StampDate(x: Stamp): int { x.date }

  function EntryDate(e: Entry): int { e.date }

  /** Tags a library entry with its phase's table colour. */
  function Tagged(x: Stamp): Entry {
    Entry(x.name, x.date, Target(x.name).s, Target(x.name).l)
  }

  /** Drops the colour of each palette entry, leaving the phase and its instant. */
  function Stamps(p: seq<Entry>): seq<Stamp> {
    seq(|p|, i requires 0 <= i < |p| => Stamp(p[i].name, p[i].date))
  }

  /**
   * The palette: the library's entries, in the order the object lists them,
   * sorted ascending by instant (stably) and tagged with the table colours.
   */
  function BuildPalette(times: seq<Stamp>): (p: seq<Entry>)
    ensures |p| == |times|
    ensures SortedBy(p, EntryDate)
    ensures forall i :: 0 <= i < |p| ==> SL(p[i].s, p[i].l) == Target(p[i].name)
    ensures multiset(Stamps(p)) == multiset(times)
    ensures forall k :: WithKey(Stamps(p), StampDate, k) == WithKey(times, StampDate, k)
  {
    var sorted := Sort(times, StampDate);
    var p := seq(|sorted|, i requires 0 <= i < |sorted| => Tagged(sorted[i]));
    assert Stamps(p) == sorted;
    forall k ensures WithKey(Stamps(p), StampDate, k) == WithKey(times, StampDate, k) {
      SortStable(times, StampDate, k);
    }
    assert forall i, j :: 0 <= i < j < |p| ==> StampDate(sorted[i]) <= StampDate(sorted[j]);
    p
  }

  /** Building the palette from entries already in ascending order of instant keeps their order. */
  lemma {:induction false} BuildPaletteOfSorted(times: seq<Stamp>)
    requires SortedBy(times, StampDate)
    ensures Stamps(BuildPalette(times)) == times
  {
    SortOfSorted(times, StampDate);
    assert Stamps(BuildPalette(times)) == Sort(times, StampDate);
  }
}
