/**
 * Bar colours and label contrast: the static `LANG_COLORS` table, the lookup
 * with its grey fallback, the decoding of the `#rrggbb` channels and the
 * brightness test that picks dark or white label text.
 */
module Colors {
  import opened Wrappers

  /** `LANG_COLORS`, as the (name, colour) pairs of the object literal, in source order. */
  const LangColorTable: seq<(string, string)> :=
    FrontEndColors + BackEndColors + DataScriptColors + DocConfigColors + ToolingColors

  /** Front end. */
  const FrontEndColors: seq<(string, string)> := [
    ("Vue.js", "#42b883"),
    ("React", "#61dafb"),
    ("Angular", "#dd0031"),
    ("Svelte", "#ff3e00"),
    ("JavaScript", "#f7df1e"),
    ("TypeScript", "#3178c6"),
    ("HTML", "#e34c26"),
    ("CSS", "#264de4"),
    ("SCSS", "#cd6799"),
    ("LESS", "#1d365d"),
    ("JSON", "#292929"),
    ("Markdown", "#083fa1"),
    ("YAML", "#cb171e"),
    ("GraphQL", "#e535ab")
  ]

  /** Back end and cross-platform. */
  const BackEndColors: seq<(string, string)> := [
    ("Node.js", "#339933"),
    ("NestJS", "#e0234e"),
    ("Python", "#3572A5"),
    ("Go", "#00ADD8"),
    ("Java", "#b07219"),
    ("C#", "#178600"),
    ("C++", "#f34b7d"),
    ("PHP", "#8892be"),
    ("Ruby", "#701516"),
    ("Rust", "#dea584"),
    ("Kotlin", "#A97BFF"),
    ("Swift", "#ffac45"),
    ("Dart", "#00B4AB")
  ]

  /** Data and scripting. */
  const DataScriptColors: seq<(string, string)> := [
    ("Shell", "#89e051"),
    ("Bash", "#89e051"),
    ("PowerShell", "#012456"),
    ("SQL", "#e38c00"),
    ("Lua", "#000080"),
    ("R", "#198ce7"),
    ("Perl", "#0298c3")
  ]

  /** Documents and configuration. */
  const DocConfigColors: seq<(string, string)> := [
    ("XML", "#0060ac"),
    ("TOML", "#9c4221"),
    ("INI", "#d1dbe0")
  ]

  /** Plugins and others. */
  const ToolingColors: seq<(string, string)> := [
    ("Dockerfile", "#384d54"),
    ("Makefile", "#427819"),
    ("Go Module", "#00ADD8")
  ]

  const FallbackColor: string := "#888"
  const DarkText: string := "#333"
  const LightText: string := "#fff"

  /** Property lookup on an object literal: the last pair with that name wins. */
  function Lookup(entries: seq<(string, string)>, name: string): Option<string> {
    if entries == [] then None
    else if entries[|entries| - 1].0 == name then Some(entries[|entries| - 1].1)
    else Lookup(entries[..|entries| - 1], name)
  }

  predicate IsKey(entries: seq<(string, string)>, name: string) {
    exists i :: 0 <= i < |entries| && entries[i].0 == name
  }

  /** `LANG_COLORS[name] || "#888"`: an absent key, or an empty value, falls back. */
  function ColorFor(name: string): (c: string)
    ensures c != ""
  {
    match Lookup(LangColorTable, name)
    case Some(c) => if c != "" then c else FallbackColor
    case None => FallbackColor
  }

  predicate IsHexDigit(c: char) {
    '0' <= c <= '9' || 'a' <= c <= 'f' || 'A' <= c <= 'F'
  }

  function HexDigitValue(c: char): (v: nat)
    requires IsHexDigit(c)
    ensures v < 16
  {
    if '0' <= c <= '9' then c as int - '0' as int
    else if 'a' <= c <= 'f' then c as int - 'a' as int + 10
    else c as int - 'A' as int + 10
  }

  /** `#` followed by exactly six hex digits, in either letter case. */
  predicate WellFormedColor(c: string) {
    |c| == 7 && c[0] == '#' && forall i :: 1 <= i < 7 ==> IsHexDigit(c[i])
  }

  predicate AllWellFormed(entries: seq<(string, string)>) {
    forall i :: 0 <= i < |entries| ==> WellFormedColor(entries[i].1)
  }

  lemma AllWellFormedAppend(a: seq<(string, string)>, b: seq<(string, string)>)
    requires AllWellFormed(a) && AllWellFormed(b)
    ensures AllWellFormed(a + b)
  {
    forall i | 0 <= i < |a + b| ensures WellFormedColor((a + b)[i].1) {
      if i >= |a| {
        assert (a + b)[i] == b[i - |a|];
      }
    }
  }

  lemma FrontEndWellFormed()
    ensures AllWellFormed(FrontEndColors)
  {
  }

  lemma BackEndWellFormed()
    ensures AllWellFormed(BackEndColors)
  {
  }

  lemma DataScriptWellFormed()
    ensures AllWellFormed(DataScriptColors)
  {
  }

  lemma DocConfigWellFormed()
    ensures AllWellFormed(DocConfigColors)
  {
  }

  lemma ToolingWellFormed()
    ensures AllWellFormed(ToolingColors)
  {
  }

  /** Every colour of the table is well formed. */
  lemma TableWellFormed()
    ensures AllWellFormed(LangColorTable)
  {
    FrontEndWellFormed();
    BackEndWellFormed();
    DataScriptWellFormed();
    DocConfigWellFormed();
    ToolingWellFormed();
    AllWellFormedAppend(FrontEndColors, BackEndColors);
    AllWellFormedAppend(FrontEndColors + BackEndColors, DataScriptColors);
    AllWellFormedAppend(FrontEndColors + BackEndColors + DataScriptColors, DocConfigColors);
    AllWellFormedAppend(FrontEndColors + BackEndColors + DataScriptColors + DocConfigColors, ToolingColors);
  }

  /** The lookup finds a value exactly for the keys, and the value is one bound to that key. */
  lemma {:induction false} LookupSpec(entries: seq<(string, string)>, name: string)
    ensures Lookup(entries, name).Some? <==> IsKey(entries, name)
    ensures Lookup(entries, name).Some? ==>
              exists i :: 0 <= i < |entries| && entries[i] == (name, Lookup(entries, name).value)
  {
    if entries != [] {
      var p := entries[..|entries| - 1];
      LookupSpec(p, name);
      if entries[|entries| - 1].0 != name {
        if IsKey(entries, name) {
          var i :| 0 <= i < |entries| && entries[i].0 == name;
          assert p[i].0 == name;
        }
        if Lookup(p, name).Some? {
          var i :| 0 <= i < |p| && p[i] == (name, Lookup(p, name).value);
          assert entries[i] == p[i];
        }
      }
    }
  }

  /** The grey fallback is taken exactly for names that are not keys of the table. */
  lemma ColorForSpec(name: string)
    ensures ColorFor(name) == FallbackColor <==> !IsKey(LangColorTable, name)
    ensures IsKey(LangColorTable, name) ==> WellFormedColor(ColorFor(name))
  {
    LookupSpec(LangColorTable, name);
    TableWellFormed();
    if IsKey(LangColorTable, name) {
      var i :| 0 <= i < |LangColorTable| && LangColorTable[i] == (name, Lookup(LangColorTable, name).value);
      assert WellFormedColor(LangColorTable[i].1);
    }
  }

  // ---- decoding the channels and choosing the label colour ----

  /** `s.substr(start, len)` for non-negative arguments: clamped to the string. */
  function Substr(s: string, start: nat, len: nat): (r: string)
    ensures |r| <= len
    ensures start + len <= |s| ==> r == s[start..start + len]
  {
    s[Min(start, |s|)..Min(start + len, |s|)]
  }

  /** Number of leading hex digits of `s`. */
  function HexPrefixLen(s: string): (k: nat)
    ensures k <= |s|
    ensures forall i :: 0 <= i < k ==> IsHexDigit(s[i])
    ensures k < |s| ==> !IsHexDigit(s[k])
  {
    if s == [] || !IsHexDigit(s[0]) then 0 else 1 + HexPrefixLen(s[1..])
  }

  /** The number a string of hex digits denotes, most significant digit first. */
  function HexValue(ds: string): nat
    requires forall i :: 0 <= i < |ds| ==> IsHexDigit(ds[i])
  {
    if ds == [] then 0 else HexValue(ds[..|ds| - 1]) * 16 + HexDigitValue(ds[|ds| - 1])
  }

  /** `parseInt(s, 16)`: the value of the leading hex digits; None stands for NaN. */
  function ParseHex(s: string): (r: Option<nat>)
    ensures r.Some? <==> s != [] && IsHexDigit(s[0])
  {
    var k := HexPrefixLen(s);
    if k == 0 then None else Some(HexValue(s[..k]))
  }

  datatype Rgb = Rgb(r: nat, g: nat, b: nat)

  /** `parseInt(color.substr(1, 2), 16)` and likewise at 3 and 5; None when any is NaN. */
  function Channels(color: string): Option<Rgb> {
    match (ParseHex(Substr(color, 1, 2)), ParseHex(Substr(color, 3, 2)), ParseHex(Substr(color, 5, 2)))
    case (Some(r), Some(g), Some(b)) => Some(Rgb(r, g, b))
    case _ => None
  }

  /** `(r * 299 + g * 587 + b * 114) / 1000` */
  function Brightness(c: Rgb): (v: real)
    ensures 0.0 <= v
    ensures c.r <= 255 && c.g <= 255 && c.b <= 255 ==> v <= 255.0
  {
    (c.r * 299 + c.g * 587 + c.b * 114) as real / 1000.0
  }

  /** `brightness > 160 ? "#333" : "#fff"`; a NaN brightness compares false. */
  function TextColor(color: string): (t: string)
    ensures t == DarkText || t == LightText
  {
    match Channels(color)
    case Some(c) => if Brightness(c) > 160.0 then DarkText else LightText
    case None => LightText
  }

  /** Two hex digits decode to `16 * high + low`, a value in 0..255. */
  lemma ParseHexPair(s: string)
    requires |s| == 2 && IsHexDigit(s[0]) && IsHexDigit(s[1])
    ensures ParseHex(s) == Some(16 * HexDigitValue(s[0]) + HexDigitValue(s[1]))
    ensures ParseHex(s).value <= 255
  {
    assert HexPrefixLen(s) == 2 by {
      assert HexPrefixLen(s[1..]) == 1;
    }
    assert s[..2] == s;
    assert s[..1][..0] == [];
    assert HexValue(s[..1]) == HexDigitValue(s[0]);
  }

  /** The value of digit pair `color[i], color[i + 1]`. */
  function PairValue(color: string, i: nat): nat
    requires i + 1 < |color| && IsHexDigit(color[i]) && IsHexDigit(color[i + 1])
  {
    16 * HexDigitValue(color[i]) + HexDigitValue(color[i + 1])
  }

  /** A well-formed colour decodes to its three digit pairs, each in 0..255. */
  lemma WellFormedChannels(color: string)
    requires WellFormedColor(color)
    ensures Channels(color) == Some(Rgb(PairValue(color, 1), PairValue(color, 3), PairValue(color, 5)))
    ensures Channels(color).value.r <= 255 && Channels(color).value.g <= 255 && Channels(color).value.b <= 255
  {
    ParseHexPair(Substr(color, 1, 2));
    ParseHexPair(Substr(color, 3, 2));
    ParseHexPair(Substr(color, 5, 2));
  }

  /** The dark label is chosen exactly when `299r + 587g + 114b` exceeds 160000. */
  lemma TextColorSpec(color: string)
    requires WellFormedColor(color)
    ensures TextColor(color) == DarkText || TextColor(color) == LightText
    ensures TextColor(color) == DarkText
        <==> 299 * PairValue(color, 1) + 587 * PairValue(color, 3) + 114 * PairValue(color, 5) > 160000
  {
    WellFormedChannels(color);
  }

  /**
   * The fallback `#888` is four characters long: its blue channel is the
   * empty string, which parses to NaN, so its label is white.
   */
  lemma FallbackTextColor()
    ensures ParseHex(Substr(FallbackColor, 1, 2)) == Some(0x88)
    ensures ParseHex(Substr(FallbackColor, 3, 2)) == Some(8)
    ensures Substr(FallbackColor, 5, 2) == "" && ParseHex(Substr(FallbackColor, 5, 2)) == None
    ensures Channels(FallbackColor) == None
    ensures TextColor(FallbackColor) == LightText
  {
    ParseHexPair("88");
    assert Substr(FallbackColor, 1, 2) == "88";
    assert Substr(FallbackColor, 3, 2) == "8";
    assert HexPrefixLen("8") == 1;
    assert "8"[..1] == "8" && "8"[..0] == "";
  }

  /** A language missing from the table gets the grey bar and white text. */
  lemma UnknownLanguageColors(name: string)
    requires !IsKey(LangColorTable, name)
    ensures ColorFor(name) == FallbackColor
    ensures TextColor(ColorFor(name)) == LightText
  {
    ColorForSpec(name);
    FallbackTextColor();
  }

  /** The threshold is strict: brightness exactly 160 (`#a0a0a0`) still gets white text. */
  lemma BrightnessBoundary()
    ensures TextColor("#a0a0a0") == LightText
    ensures TextColor("#a0a0a1") == DarkText
  {
    WhiteAtThreshold();
    DarkAboveThreshold();
  }

  lemma WhiteAtThreshold()
    ensures TextColor("#a0a0a0") == LightText
  {
    var c := "#a0a0a0";
    assert WellFormedColor(c);
    assert PairValue(c, 1) == 160 && PairValue(c, 3) == 160 && PairValue(c, 5) == 160;
    TextColorSpec(c);
  }

  lemma DarkAboveThreshold()
    ensures TextColor("#a0a0a1") == DarkText
  {
    var c := "#a0a0a1";
    assert WellFormedColor(c);
    assert PairValue(c, 1) == 160 && PairValue(c, 3) == 160 && PairValue(c, 5) == 161;
    TextColorSpec(c);
  }
}
