# Top-languages chart: a Dafny model

`generate-lang-chart.js` reads a week of per-day coding summaries from a
time-tracking service and draws a bar chart of the five languages with the most
time. This project models the computation between the HTTP response and the SVG
markup, and proves properties of that model:

- **Aggregation** (`Aggregation`, `aggregation.dfy`). The nested `forEach`
  folds every `{name, text_seconds}` entry of every day into `langMap`. It is
  modelled as a method with two `while` loops over a `map<string, nat>` and the
  map's key insertion order (a `seq<string>`). Together these are what a
  JavaScript object with ordinary string keys is. A missing `languages` list or
  a missing `text_seconds` counts as empty or 0 (`Option` in `Wrappers`). The
  method is proved against reference functions. Its table lists the distinct
  names in first-encounter order, gives each name the sum of its seconds over
  all days, and has a total equal to the sum of all entries.
- **Statistics and selection** (`LangStats`, `stats.dfy`). This covers the grand
  total with its `|| 1` floor, `hours` and `percent` as exact reals, the stable
  descending sort by `hours` (insertion sort, since `Array.prototype.sort` is
  stable), and `slice(0, 5)`. `FetchLangs` composes aggregation and ranking on
  the parsed `summaries`.
- **Colour and contrast** (`Colors`, `colors.dfy`). This covers the
  `LANG_COLORS` table, the lookup with the `#888` fallback, JavaScript's
  `substr` and `parseInt(…, 16)` on the colour string, and the brightness test
  that picks `#333` or `#fff` for the label.
- **Layout** (`Layout`, `layout.dfy`). This covers the fixed constants, chart
  height, row offsets, bar widths and label positions. The `forEach` over the
  ranked languages is a method that appends one `ChartRow` per language: the
  numbers and colours that go into that row's two `<rect>` and one `<text>`
  elements.

Behaviour of the code worth noting:

- A language that appears only with 0 seconds is still a key of `langMap`. The
  code runs `langMap[name] = 0` before adding. So an input whose entries all
  have zero duration gives a non-empty result, with hours 0 and percent 0. The result is empty exactly when there are no
  language entries at all (`FetchLangs`).
- Dark text `#333` is chosen when brightness is strictly above 160, so
  brightness exactly 160 (`#a0a0a0`) gives white text (`BrightnessBoundary`).
- The fallback `#888` has only four characters. Its blue channel
  `"#888".substr(5, 2)` is `""`, and `parseInt("", 16)` is NaN. The comparison
  is then false and the text is white (`FallbackTextColor`).
- Two rows give height `2 * 35 + 40 = 110` (`TwoRowHeight`): the last row also gets its trailing gap.

## Model

| member | source | states |
|---|---|---|
| Aggregation.AggregateDays | generate-lang-chart.js:84-91 | the table's names are the distinct entry names, unique and in first-encounter order; each name's seconds are the sum of its `text_seconds` over all days (absent values and absent lists count 0); the table's total equals the sum of all entries; and the table is exactly `Table(days)` |
| Aggregation.Table | generate-lang-chart.js:84-95 | defines the table `Object.entries(langMap)` should hold: every distinct name, first-encountered first, paired with its total |
| Aggregation.TotalsAt | generate-lang-chart.js:95 | entry i of `Totals(names, es)` is name i with its total over `es` |
| Aggregation.TableIsTotals | generate-lang-chart.js:95 | a table whose names are `names` and whose every value is its name's total is `Totals(names, es)`: the aggregated table is determined by the input |
| Aggregation.CountDay | generate-lang-chart.js:86-91 | the inner loop over one day's `languages` (empty when absent) keeps the folding invariant over that day's entries: key order = distinct names so far, values = per-name totals, sum of values = total so far |
| Aggregation.CountEntry | generate-lang-chart.js:87-90 | one entry keeps the folding invariant; the key order grows by the name exactly when the name was not yet a key |
| Aggregation.FoldStepOld | generate-lang-chart.js:89 | adding the seconds of an already present name leaves the key order alone and keeps every value equal to that name's total |
| Aggregation.FoldStepNew | generate-lang-chart.js:88-89 | a new name is appended to the key order with value = its seconds, since its total so far is 0 |
| Aggregation.DistinctSpec | generate-lang-chart.js:88 | the key list has no duplicates, has exactly the names seen, and is empty only when no entry was seen |
| Aggregation.DistinctFirstEncounter | generate-lang-chart.js:88 | a name earlier in the key list was first encountered earlier in the input |
| Aggregation.EntriesSpec | generate-lang-chart.js:95 | `Object.entries` yields one (name, seconds) pair per key, in key order, with that key's value |
| Aggregation.Entries | generate-lang-chart.js:95 | defines `Object.entries(langMap)` as (key, value) pairs in key insertion order |
| Aggregation.TableSum | generate-lang-chart.js:93 | defines `Object.values(langMap).reduce((a, b) => a + b, 0)` |
| Aggregation.EntrySeconds | generate-lang-chart.js:89 | defines `lang.text_seconds || 0`: an absent value counts 0 seconds |
| Aggregation.DayEntries | generate-lang-chart.js:87 | defines `day.languages || []`: a day without a language list contributes no entries |
| LangStats.GrandTotal | generate-lang-chart.js:93 | the grand total is at least 1, and equals the sum of all seconds when that sum is positive |
| LangStats.ToStat | generate-lang-chart.js:96-100 | defines `{name, hours: seconds / 3600, percent: (seconds / totalSeconds) * 100}` for one entry |
| LangStats.ToStats | generate-lang-chart.js:95-100 | the `.map(...)` over the entries; keeps the length |
| LangStats.ToStatsAt | generate-lang-chart.js:95-100 | the map keeps length and order and turns entry i into its stat |
| LangStats.PercentSum | generate-lang-chart.js:93-100 | the percents of all entries add up to 100 × (sum of seconds) / (grand total) |
| LangStats.PercentsSumTo100 | generate-lang-chart.js:93-100 | with some time recorded, the percents over the whole uncut table sum to exactly 100 |
| LangStats.StatBounds | generate-lang-chart.js:93-100 | each stat keeps its name, has hours = seconds / 3600 and percent in [0, 100]; a zero-second language has hours 0 and percent 0 |
| LangStats.InsertByHours | generate-lang-chart.js:101 | one insertion step of the stable sort: `x` goes after every element with at least its hours; adds one element |
| LangStats.SortByHours | generate-lang-chart.js:101 | `.sort((a, b) => b.hours - a.hours)` as a stable insertion sort; keeps the length |
| LangStats.InsertSorted | generate-lang-chart.js:101 | inserting into a non-increasing sequence keeps it non-increasing and adds exactly that element |
| LangStats.InsertWithHours | generate-lang-chart.js:101 | the inserted element goes after all earlier elements with equal hours |
| LangStats.SortSpec | generate-lang-chart.js:101 | the sort returns a permutation of its input, in non-increasing hours |
| LangStats.SortStable | generate-lang-chart.js:101 | for every hours value, the entries with that value keep their input order (stability) |
| LangStats.StableSortUnique | generate-lang-chart.js:101 | any non-increasing arrangement that keeps ties in input order equals the model's sort, so no particular stable algorithm is assumed |
| LangStats.TopLanguages | generate-lang-chart.js:95-102 | the `.map`, `.sort` and `.slice(0, 5)` chain on the aggregated table; its length is min(5, number of entries) |
| LangStats.TopLanguagesSpec | generate-lang-chart.js:95-102 | the result has length min(5, number of languages), is non-increasing in hours, is a prefix of the stably sorted full list, and each element is the stat of some table entry |
| LangStats.TopLanguagesMost | generate-lang-chart.js:101-102 | `slice(0, 5)` of the descending sort keeps the languages with the most hours: a table entry whose stat was cut has no more hours than any kept one |
| LangStats.TopLanguagesDistinct | generate-lang-chart.js:95-102 | a table with distinct names gives top languages with distinct names |
| LangStats.SortDistinct | generate-lang-chart.js:101 | sorting keeps names distinct |
| LangStats.TopOfTable | generate-lang-chart.js:93-102 | for a table aggregated from some entries: length min(5, distinct names), empty iff no entries, sorted by hours |
| LangStats.TopOfTableStats | generate-lang-chart.js:93-102 | for a table aggregated from some entries: every top language's name comes from the input, hours = its total / 3600, percent in [0, 100] and equal to its share of the sum when the sum is positive |
| LangStats.TopOfTableCut | generate-lang-chart.js:101-102 | an input name that was cut has no more hours than any kept language |
| LangStats.FetchLangs | generate-lang-chart.js:84-104 | for parsed summaries: the result is exactly `TopLanguages(Table(summaries))`; length min(5, distinct names); empty iff no language entries at all; sorted by hours; names distinct and from the input; hours = total / 3600; percent in [0, 100], equal to the share of the total when that is positive; every input name left out has no more hours than any kept one |
| LangStats.TwoEqualLanguages | generate-lang-chart.js:84-102 | one day with Go and then Rust at 3600 s each aggregates to the table [Go 3600, Rust 3600] and gives two entries of 1 hour and 50 %, Go first (ties keep first-encounter order) |
| Colors.TableWellFormed | generate-lang-chart.js:10-60 | every colour in the table is `#` followed by six hex digits |
| Colors.LangColorTable | generate-lang-chart.js:10-60 | defines the `LANG_COLORS` literal as its (name, colour) pairs in source order |
| Colors.Lookup | generate-lang-chart.js:122 | defines the property read `LANG_COLORS[name]` on the object literal (the last pair with that key wins; absent gives None) |
| Colors.ColorFor | generate-lang-chart.js:122 | `LANG_COLORS[name] || "#888"`; never empty |
| Colors.LookupSpec | generate-lang-chart.js:122 | the property lookup finds a value exactly for the keys of the table, and that value is bound to the key |
| Colors.ColorForSpec | generate-lang-chart.js:122 | the grey fallback is used exactly for names that are not keys; a key's colour is well formed |
| Colors.Substr | generate-lang-chart.js:131-133 | `s.substr(start, len)` for non-negative arguments: at most `len` characters, the exact slice when it fits |
| Colors.ParseHex | generate-lang-chart.js:131-133 | `parseInt(s, 16)`: a number exactly when `s` starts with a hex digit, NaN (None) otherwise |
| Colors.Channels | generate-lang-chart.js:131-133 | defines the three `parseInt(color.substr(k, 2), 16)` channels, undefined when any is NaN |
| Colors.Brightness | generate-lang-chart.js:134 | `(r * 299 + g * 587 + b * 114) / 1000`: non-negative, and at most 255 for channels in 0..255 |
| Colors.TextColor | generate-lang-chart.js:134-137 | `brightness > 160 ? "#333" : "#fff"` with a NaN brightness comparing false; always one of the two |
| Colors.HexPrefixLen | generate-lang-chart.js:131-133 | `parseInt` reads the maximal run of leading hex digits |
| Colors.HexValue | generate-lang-chart.js:131-133 | defines the base-16 value `parseInt` accumulates from a run of hex digits, most significant first |
| Colors.ParseHexPair | generate-lang-chart.js:131-133 | two hex digits parse to 16 × high + low, at most 255 |
| Colors.WellFormedChannels | generate-lang-chart.js:131-133 | a well-formed colour decodes to its three digit pairs, each in 0..255 |
| Colors.TextColorSpec | generate-lang-chart.js:134-137 | for a well-formed colour the label is `#333` iff 299r + 587g + 114b > 160000, otherwise `#fff` |
| Colors.FallbackTextColor | generate-lang-chart.js:131-137 | for `#888` red parses to 0x88 and green to 8, blue is `""` and NaN, so the channels are undefined and the label is `#fff` |
| Colors.UnknownLanguageColors | generate-lang-chart.js:122-137 | a language not in the table gets bar `#888` and white text |
| Colors.BrightnessBoundary | generate-lang-chart.js:134-137 | brightness exactly 160 (`#a0a0a0`) gives white text, one step above (`#a0a0a1`) gives dark |
| Layout.ChartHeight | generate-lang-chart.js:114 | defines `langs.length * (barHeight + barGap) + padding * 2` |
| Layout.RowY | generate-lang-chart.js:120 | defines `padding + i * (barHeight + barGap)` |
| Layout.BarWidth | generate-lang-chart.js:121 | defines `(lang.percent / 100) * totalWidth` |
| Layout.LabelY | generate-lang-chart.js:138 | defines the label baseline `y + barHeight - 5` |
| Layout.TwoRowHeight | generate-lang-chart.js:114 | two rows give a chart 110 high |
| Layout.RowsDisjoint | generate-lang-chart.js:120 | rows i < j are (j − i) × 35 apart, so a bar ends before the next one starts |
| Layout.RowInsideCanvas | generate-lang-chart.js:114 | every row of an n-row chart starts below the top padding and ends, with its gap and the bottom padding, within the height |
| Layout.LabelInsideBar | generate-lang-chart.js:138 | the label at (25, y + 15) lies strictly inside its 360-wide background bar (the coloured bar can be narrower than 5) |
| Layout.BarWithinBackground | generate-lang-chart.js:121 | a percent in [0, 100] gives a bar width in [0, 360], the full 360 at 100 % |
| Layout.BarWidthMonotone | generate-lang-chart.js:121 | a larger percent never gives a narrower bar |
| Layout.RowsGeometry | generate-lang-chart.js:119-121 | in laid-out rows, bars do not overlap, stay inside the canvas and (for percents in range) inside their background |
| Layout.DrawRow | generate-lang-chart.js:119-142 | the callback for language `lang` at index i computes exactly `RowFor(lang, i)`: offset `RowY(i)`, width `BarWidth(lang.percent)`, the table colour with its grey fallback, the contrast text colour of that colour, and the label at (25, `LabelY(i)`) |
| Layout.LayOut | generate-lang-chart.js:119-143 | one row per language in order, row i being `RowFor(langs[i], i)`: its offset, bar width, table colour, contrast text colour and label position; plus the geometry above |
| Layout.GenerateSvg | generate-lang-chart.js:107-143 | the canvas is 400 wide; row i is `RowFor(TopLanguages(Table(summaries))[i], i)`, so the rows hold the top languages of the aggregated input in stable hours order; min(5, distinct names) rows, height following the row count, empty iff there are no entries, bars fit their background, and a row is grey iff its language is not in the table |

## Left out

- The credential guard at lines 5–8 is not modelled. It is process and environment handling, and as written it reads an undeclared `WAKATIME_API_KEY`.
- The seven-day date window (lines 64–69) is not modelled. It is library date and time-zone arithmetic.
- The HTTP request, the status check, the base64 header and JSON parsing (lines 72–82) are not modelled. The model takes the parsed `summaries` list as its input (`data.data || []` is the caller's empty list).
- SVG string templating and `toFixed(2)` number formatting (lines 116–118, 125–145) are not modelled. Each row's values are kept in a `ChartRow` in place of the markup. The constant attributes `rx="6"` and `fill="#eee"` are not represented.
- Creating the output directory, writing the file and logging (lines 147–150, 153) are not modelled.
- JavaScript object-key quirks of `langMap` (lines 86–89) and of the `LANG_COLORS[lang.name]` read (line 122) are not modelled: integer-like keys are enumerated first, and names such as `"constructor"` hit prototype properties (for the colour lookup that yields a function, and `color.substr` then throws). Language names are treated as ordinary keys.
- IEEE-754 rounding of `hours` and `percent` is not modelled. They are exact reals, so "the percents sum to exactly 100" holds only in the model.
- `text_seconds` is modelled as a non-negative integer. Fractional seconds are not represented.
- Colors.ParseHex: models `parseInt(s, 16)` as the value of the leading hex digits, or NaN when there are none. It does not model leading whitespace, a sign or a `0x` prefix. Every string it receives here is a substring of a table colour or of `#888`, which contain none of those.
