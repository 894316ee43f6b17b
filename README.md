# solor day palette — a Dafny model

solor is a single web page that colours itself after the position of the sun.
It asks the browser for the user's location, asks a sun-position library for
the day's fourteen solar phases (nadir, dawn, sunrise, solar noon, sunset,
dusk, night, ...), gives each phase a fixed saturation/lightness pair from a
table, and paints the background with the colour interpolated between the
phases around the current instant. Beside the text it draws a timeline of
the day: one coloured segment per phase, a leading night segment from
midnight, and a column of 24 hour labels.

This project models the logic of that page in `app/page.tsx`:

- `palette.dfy` (module `Palette`): the colour table and the palette build —
  the library's phases sorted ascending by instant and tagged with their
  table colours.
- `sorting.dfy` (module `Sorting`): the stable sort that `Array.prototype.sort`
  performs with the comparator `a - b`, written as an insertion sort and
  proved sorted, a permutation, stable, and the only sorted stable
  arrangement (so any stable sort gives the same result).
- `interpolation.dfy` (module `Interpolation`): `getSLForDate` — the query is
  appended to the palette as the entry named "now", the list is sorted, its
  `findIndex` gives the insertion position, the previous and next entries are
  chosen with wraparound, and saturation and lightness are interpolated
  between their table colours and rounded.
- `clock.dfy` (module `Clock`): the clock readings the timeline uses — the
  minute of the local day, the packed number `H*100+mm` that
  `Number(format(date, 'Hmm'))` gives, and the `format(date, 'HHmm')` text.
- `timeline.dfy` (module `Timeline`): the segment `top`/`height` arithmetic
  on the ruler of 2400 packed units and the hour ruler's labels.

The model is made of functions and lemmas: the modelled code builds fresh
arrays with spread, `sort`, `findIndex` and `map`, and never updates a
variable in a loop.

Modelling conventions:

- Instants are integer milliseconds. `differenceInMinutes` is the millisecond
  difference divided by 60000 and truncated toward zero (the library's
  default rounding), `DiffMinutes`.
- `percent` is a `real`; `Math.round(x)` is `Floor(x + 1/2)`, `Round`.
- The local midnight (`startOfToday()`) is a parameter `midnight`; the
  minute of the local day of an instant `t` is
  `((t - midnight) div 60000) mod 1440`.
- The code's sort and `findIndex` are modelled literally: `NowIndex` sorts the
  palette plus the query and searches for the query. Its contract proves that
  this equals the number of palette entries at or before the query.
- The timeline places segments by the packed clock `H*100+mm` over 2400, not
  by minutes over 1440. `PackedStep` shows that the two are not
  proportional: the last minute of every hour spans 41 units.
- The timeline reads each entry's clock within the local day only. An entry
  outside the local day, such as a nadir on the previous evening (the nadir
  lies 12 hours before solar noon, so it falls before midnight wherever solar
  noon comes before 12:00), packs to a late clock. The leading segment then
  reaches down to it and its own segment gets a negative height.
  `HeightsNonNegative` states exactly when this happens, and
  `ClocksAscendWithinDay` shows that entries within the day avoid it.
- The code does not require the palette's instants to be distinct, so the
  model allows equal instants. A query equal to several entries' instant
  takes the last of them as the previous entry (`ExactHit`).

## Model

| member | source | states |
|---|---|---|
| `Palette.Target` | app/page.tsx:8-23 | every phase's table entry has saturation equal to lightness, both within 15..85 |
| `Palette.TargetSymmetric` | app/page.tsx:8-23 | each evening phase has the colour of its mirrored morning phase; nadir is the darkest entry and solar noon the brightest |
| `Palette.BuildPalette` | app/page.tsx:45-52 | the palette has one entry per library entry, is ascending by instant, is a permutation of the input, keeps equal instants in input order, and carries each entry's table colour |
| `Palette.BuildPaletteOfSorted` | app/page.tsx:45-46 | entries already ascending by instant keep their order in the palette |
| `Sorting.Sort` | app/page.tsx:46 | the sort's result has the input's length, is a permutation of the input, and is ascending by key |
| `Sorting.SortStable` | app/page.tsx:46 | for every key, the elements with that key keep their input order (stability) |
| `Sorting.SortIsUnique` | app/page.tsx:61 | any ascending arrangement that keeps every key's elements in input order equals `Sort`, so the model agrees with every stable sort |
| `Sorting.SortOfSorted` | app/page.tsx:61 | sorting an ascending sequence leaves it unchanged |
| `Sorting.InsertAt` | app/page.tsx:60-61 | inserting into an ascending sequence puts the new element right after each element whose key is at most its own |
| `Sorting.CountSort` | app/page.tsx:61 | sorting keeps the number of elements at or below any key |
| `Interpolation.FindNow` | app/page.tsx:62 | `findIndex` returns the first position of the "now" entry, or -1 exactly when there is none |
| `Interpolation.NowIndex` | app/page.tsx:60-62 | the query's position after the stable sort is the number of palette entries at or before the query, so it lies in 0..length, for any palette order |
| `Interpolation.NowIndexIsCount` | app/page.tsx:60-62 | sorting the palette with the query appended last, then searching for the query, yields the count of entries at or before it |
| `Interpolation.PrevIndex` | app/page.tsx:63-64 | the previous index is the position before the query, taken cyclically, and always in bounds |
| `Interpolation.NextIndex` | app/page.tsx:65 | the next index is the query's position, taken cyclically, and always in bounds |
| `Interpolation.DiffMinutes` | app/page.tsx:66-68 | whole minutes between two instants, truncated toward zero: non-negative and at most the true difference when later >= earlier, non-positive otherwise |
| `Interpolation.DiffMinutesMonotone` | app/page.tsx:66-68 | the minute difference never decreases as the later instant grows |
| `Interpolation.Round` | app/page.tsx:70-77 | `Math.round` gives the nearest integer, with halves rounded up |
| `Interpolation.LerpBetween` | app/page.tsx:70-77 | for a fraction in [0, 1], the rounded interpolation stays between its two end values |
| `Interpolation.SLForDate` | app/page.tsx:59-79 | the colour is defined on every non-empty palette whose divisor is non-zero, and its saturation equals its lightness |
| `Interpolation.Bracket` | app/page.tsx:60-65 | on an ascending palette, an entry lies before the query's position exactly when it is at or before the query; so a non-wrapping previous entry is the latest such entry, and a non-wrapping next entry is the earliest later one |
| `Interpolation.ExactHit` | app/page.tsx:60-78 | a query at an entry's instant takes that entry (the last with that instant) as previous, so the fraction is 0 and the returned colour is exactly the entry's table colour |
| `Interpolation.NoOvershoot` | app/page.tsx:63-78 | when the query lies between neighbours at least a minute apart, the divisor is at least 1, the fraction lies in [0, 1], and the saturation lies between the two neighbours' values (the lightness equals it, by `SLForDate`) |
| `Interpolation.WrapBeforeFirst` | app/page.tsx:63-68 | a query before the first entry pairs the last entry (as previous) with the first (as next); the divisor is negative and the fraction is at least 1 |
| `Interpolation.WrapAfterLast` | app/page.tsx:63-68 | a query at or after the last entry pairs the last entry with the first; the divisor is negative and the fraction is at most 0 |
| `Interpolation.MorningExample` | app/page.tsx:59-79 | sunrise at 06:00 (55) and solar noon at 12:00 (85) give (70, 70) at 09:00 |
| `Interpolation.WrapOvershootExample` | app/page.tsx:63-78 | nadir at 12:00 (15) and night at 13:00 (25) give saturation 75 at 18:00, far outside both entries' colours |
| `Clock.MinuteOfDay` | app/page.tsx:165 | the local minute of the day is always in 0..1439 |
| `Clock.MinuteOfDayWithinDay` | app/page.tsx:165 | within the day starting at `midnight`, the minute of the day is the number of whole minutes since midnight |
| `Clock.MinuteOfDayMonotone` | app/page.tsx:183-187 | within one day, a later instant never has an earlier minute |
| `Clock.Packed` | app/page.tsx:165 | the packed clock `H*100+mm` lies in 0..2399, and its last two digits are a minute in 00..59 |
| `Clock.PackedRoundTrip` | app/page.tsx:165 | packing is a bijection between minutes of the day and the packed numbers whose minutes are 00..59 |
| `Clock.PackedOrder` | app/page.tsx:179-187 | packing preserves the order of minutes in both directions |
| `Clock.PackedStep` | app/page.tsx:179-187 | consecutive minutes differ by 1 packed unit, except at a full hour, where they differ by 41 |
| `Clock.Pad4Value` | app/page.tsx:150-151 | reading back a number zero-padded to four digits gives the number |
| `Clock.HHmmIsPackedText` | app/page.tsx:150-151 | the `HHmm` text is the packed clock zero-padded to four digits, so it reads as the same number as the `Hmm` text |
| `Clock.EndsWith00AtFullHour` | app/page.tsx:150 | the `HHmm` text ends in "00" exactly at full hours |
| `Timeline.AsPercentAdditive` | app/page.tsx:165-187 | the percentage of a sum of ruler units is the sum of their percentages, so the segments' percentages add up as their heights do |
| `Timeline.Clocks` | app/page.tsx:183 | each palette entry gets one packed clock, and it lies in 0..2399 |
| `Timeline.Layout` | app/page.tsx:158-193 | there is one segment per entry plus a leading one at the top; each segment ends where the next begins (`top_i + height_i = top_{i+1}`), the last ends at 2400, and entry segments start at their entries' packed clocks |
| `Timeline.SegmentColours` | app/page.tsx:160-178 | one colour per segment, each with saturation equal to lightness within 15..85 |
| `Timeline.PaletteSegmentColours` | app/page.tsx:158-193 | on a built palette the leading segment starts at the top in the night colour, and the segment that starts at entry `i`'s clock shows the colour stored in entry `i` |
| `Timeline.SegmentShowsBackground` | app/page.tsx:170-187 | on an ascending palette, the segment of entry `k` (the last with its instant) starts at its clock and shows exactly the background colour the lookup gives at that entry's instant |
| `Timeline.Telescope` | app/page.tsx:179-187 | the heights of segments that meet end to end add up to the distance they cover |
| `Timeline.LayoutFillsRuler` | app/page.tsx:165-187 | the segment heights add up to exactly 2400 units, i.e. 100% |
| `Timeline.HeightsNonNegative` | app/page.tsx:179-186 | no segment height is negative exactly when the entries' packed clocks never decrease |
| `Timeline.ClocksAscendWithinDay` | app/page.tsx:179-187 | an ascending palette that lies within the local day gives never-decreasing packed clocks, so no segment height is negative |
| `Timeline.ClockLabel` | app/page.tsx:150-152 | a ruler row shows a label exactly at full hours, and the label is the packed clock zero-padded to four digits |
| `Timeline.HourRuler` | app/page.tsx:139-155 | the hour ruler has exactly 24 rows |
| `Timeline.RulerLabels` | app/page.tsx:139-152 | every ruler row is labelled; row `index` is labelled with `100*index` zero-padded to four digits |
| `Timeline.LabelExamples` | app/page.tsx:150-152 | the 06:00 row is labelled "0600"; 06:30 would get no label |

## Left out

- Geolocation (`navigator.geolocation.getCurrentPosition`) and its silent failure path: asynchronous browser input. The palette's source entries are a parameter.
- `SunCalc.getTimes`: a foreign astronomical computation. Its entries, in the order the object lists them, are the input of `BuildPalette`. The model does not cover the invalid dates it gives where a phase does not occur.
- React state and effects (`useState`, `useEffect`, `setTimes`), the `times === undefined` early return, and the write to the page's background style: UI side effects. The background colour is `SLForDate` at the page's load instant, with the page's fixed hue, which the model does not carry.
- `readableColor`: a foreign library computing luminance in floating point. So the per-row `getSLForDate` call of the hour ruler, whose result only feeds `readableColor`, is not in `HourRuler`. The ruler rows carry only their labels.
- JSX layout, CSS classes, the static text and the `hsl(...)` string formatting: presentation only. The leading segment's CSS `top` is unset. The model places it at the top of the ruler, top = 0.
- Time zones and daylight saving in `format`, `startOfToday` and `addHours`: the local midnight is a parameter, and every day has 1440 minutes.
- Floating point: `percent`, the interpolation and the percentages are exact reals. No IEEE rounding is modelled, including at the exact halves `Math.round` decides.
- `Interpolation.SLForDate`: a divisor of 0 (previous and next entries less than a minute apart, e.g. a one-entry palette) is excluded by the precondition. There, the code would compute `NaN` or an infinity and does not guard against it.
- The empty palette is excluded by the preconditions of `SLForDate` and `Layout`. There, the code reads a property of `undefined` and throws.
- `Number(format(date, 'Hmm'))` is modelled as the packed number directly. The `Hmm` text itself is not built. `HHmmIsPackedText` shows that the `HHmm` text reads as that number.
