/** The front-end's UI configuration (deer/src/ui_config.c): defaults, an
    ini-style `key=value` reader with case-insensitive keys, whitespace
    trimming and a tolerant boolean parser. A string field that holds a null
    pointer is `None`. */
module UiConfig {
  import opened Text

  /** The seven layout switches of the configuration. */
  datatype Layout = Layout(showSearch: bool, showHistory: bool, showSavedItems: bool, showDataEntry: bool,
                           showThemeControls: bool, showConnection: bool, showSampleBrowser: bool)

  /** The value of a whole `DeerUiConfig`. */
  datatype Settings = Settings(theme: Option<string>, background: Option<string>, foreground: Option<string>,
                               accent: Option<string>, layout: Layout)

  const DefaultTheme := "DeerBourne Modern"
  const DefaultBackground := "#0B1E2D"
  const DefaultForeground := "#E5E9F0"
  const DefaultAccent := "#5FD1FF"

  const AllShown := Layout(true, true, true, true, true, true, true)

  /** What `deer_ui_config_use_defaults` writes. */
  function Defaults(): (s: Settings)
    ensures s.theme == Some("DeerBourne Modern")
    ensures s.background == Some("#0B1E2D") && s.foreground == Some("#E5E9F0") && s.accent == Some("#5FD1FF")
    ensures s.layout == Layout(true, true, true, true, true, true, true)
  {
    Settings(Some(DefaultTheme), Some(DefaultBackground), Some(DefaultForeground), Some(DefaultAccent), AllShown)
  }

  // ---------------------------------------------------------------------------
  // Trimming

  /** Every character of `s` is whitespace. */
  predicate Blank(s: string) {
    forall i :: 0 <= i < |s| ==> IsSpace(s[i])
  }

  /** `s` neither starts nor ends with whitespace. */
  predicate Clean(s: string) {
    s == [] || (!IsSpace(s[0]) && !IsSpace(s[|s| - 1]))
  }

  /** The bounds `deer_trim` leaves: past the leading whitespace, before the trailing whitespace. */
  function TrimBounds(s: string): (r: (nat, nat))
    ensures r.0 <= r.1 <= |s|
  {
    var start := SpaceEnd(s, 0);
    (start, RetreatWhile(s, start, |s|, IsSpace))
  }

  /** The text `deer_trim` returns. */
  function Trimmed(s: string): (r: string)
    ensures Clean(r)
  {
    var b := TrimBounds(s);
    var r := s[b.0..b.1];
    assert r != [] ==> r[0] == s[b.0] && r[|r| - 1] == s[b.1 - 1];
    r
  }

  /** Trimming drops only whitespace, and only at the two ends. */
  lemma TrimmedParts(s: string)
    ensures Blank(s[..TrimBounds(s).0]) && Blank(s[TrimBounds(s).1..])
    ensures s == s[..TrimBounds(s).0] + Trimmed(s) + s[TrimBounds(s).1..]
  {
    var b := TrimBounds(s);
    assert s == s[..b.0] + s[b.0..b.1] + s[b.1..];
    forall i | 0 <= i < b.0 ensures IsSpace(s[..b.0][i]) {
      assert s[..b.0][i] == s[i];
    }
    forall i | 0 <= i < |s| - b.1 ensures IsSpace(s[b.1..][i]) {
      assert s[b.1..][i] == s[b.1 + i];
    }
  }

  /** `deer_trim`: the pointer moves past leading whitespace, then the terminator moves back over
      trailing whitespace; the result is `text[start..end]`. */
  method Trim(text: string) returns (start: nat, end: nat)
    ensures start <= end <= |text|
    ensures text[start..end] == Trimmed(text)
  {
    start := 0;
    while start < |text| && IsSpace(text[start])
      invariant 0 <= start <= |text|
      invariant SpaceEnd(text, start) == SpaceEnd(text, 0)
    {
      start := start + 1;
    }
    end := |text|;
    while end > start && IsSpace(text[end - 1])
      invariant start <= end <= |text|
      invariant RetreatWhile(text, start, end, IsSpace) == RetreatWhile(text, start, |text|, IsSpace)
    {
      end := end - 1;
    }
  }

  lemma {:induction false} SpaceEndBlank(s: string, i: nat, j: nat)
    requires i <= j <= |s| && (j < |s| ==> !IsSpace(s[j]))
    requires forall k :: i <= k < j ==> IsSpace(s[k])
    ensures SpaceEnd(s, i) == j
    decreases j - i
  {
    if i < j {
      SpaceEndBlank(s, i + 1, j);
    }
  }

  lemma {:induction false} RetreatBlank(s: string, lo: nat, j: nat, hi: nat)
    requires lo <= j <= hi <= |s| && (j > lo ==> !IsSpace(s[j - 1]))
    requires forall k :: j <= k < hi ==> IsSpace(s[k])
    ensures RetreatWhile(s, lo, hi, IsSpace) == j
    decreases hi
  {
    if hi > j {
      RetreatBlank(s, lo, j, hi - 1);
    }
  }

  /** Trimming is determined by its meaning: text made of blanks, a clean core and blanks trims
      to that core. */
  lemma TrimmedCore(a: string, t: string, b: string)
    requires Blank(a) && Clean(t) && Blank(b)
    ensures Trimmed(a + t + b) == t
  {
    var s := a + t + b;
    if t == [] {
      assert s == a + b;
      SpaceEndBlank(s, 0, |s|);
      RetreatBlank(s, |s|, |s|, |s|);
    } else {
      assert s[|a|] == t[0];
      SpaceEndBlank(s, 0, |a|);
      assert s[|a| + |t| - 1] == t[|t| - 1];
      RetreatBlank(s, |a|, |a| + |t|, |s|);
      assert s[|a|..|a| + |t|] == t;
    }
  }

  /** Trimming twice is trimming once. */
  lemma TrimIdempotent(s: string)
    ensures Trimmed(Trimmed(s)) == Trimmed(s)
  {
    var t := Trimmed(s);
    assert t == [] + t + [];
    TrimmedCore([], t, []);
  }

  // ---------------------------------------------------------------------------
  // Booleans

  /** `deer_parse_bool`: "true", "yes" (any case) or "1" is true; "false", "no" (any case) or "0"
      is false; anything else, or no value, keeps the fallback. */
  function ParseBool(value: Option<string>, fallback: bool): (r: bool)
    ensures value.None? ==> r == fallback
    ensures r != fallback ==> value.Some? && if r then TruthyWord(value.value) else FalsyWord(value.value)
  {
    match value
    case None => fallback
    case Some(v) =>
      if EqualsIgnoreCase(v, "true") || v == "1" || EqualsIgnoreCase(v, "yes") then true
      else if EqualsIgnoreCase(v, "false") || v == "0" || EqualsIgnoreCase(v, "no") then false
      else fallback
  }

  predicate TruthyWord(v: string) {
    EqualsIgnoreCase(v, "true") || v == "1" || EqualsIgnoreCase(v, "yes")
  }

  predicate FalsyWord(v: string) {
    EqualsIgnoreCase(v, "false") || v == "0" || EqualsIgnoreCase(v, "no")
  }

  /** The three outcomes of the boolean parser; no word is both true and false. */
  lemma ParseBoolCases(v: string, fallback: bool)
    ensures !(TruthyWord(v) && FalsyWord(v))
    ensures ParseBool(Some(v), fallback) == true <==> TruthyWord(v) || (!FalsyWord(v) && fallback)
    ensures ParseBool(Some(v), fallback) == fallback <==> (fallback && !FalsyWord(v)) || (!fallback && !TruthyWord(v))
  {
  }

  /** The words the parser knows, in any case, and the digits. */
  lemma ParseBoolWords(fallback: bool)
    ensures ParseBool(Some("TRUE"), fallback) && ParseBool(Some("Yes"), fallback) && ParseBool(Some("1"), fallback)
    ensures !ParseBool(Some("False"), fallback) && !ParseBool(Some("NO"), fallback) && !ParseBool(Some("0"), fallback)
    ensures ParseBool(Some("on"), fallback) == fallback && ParseBool(None, fallback) == fallback
  {
    assert Lower("TRUE") == "true";
    assert Lower("Yes") == "yes";
    assert Lower("False") == "false";
    assert Lower("NO") == "no";
    assert Lower("on") == "on";
  }

  // ---------------------------------------------------------------------------
  // Entries

  const StringKeys := ["theme", "color_background", "color_foreground", "color_accent"]
  const BoolKeys := ["show_search", "show_history", "show_saved_items", "show_data_entry",
                     "show_theme_controls", "show_connection", "show_sample_browser"]

  /** The layout after the `i`-th switch, counted in `BoolKeys` order, is set to `b`. */
  function SetSwitch(l: Layout, i: nat, b: bool): Layout
    requires i < 7
  {
    match i
    case 0 => l.(showSearch := b)
    case 1 => l.(showHistory := b)
    case 2 => l.(showSavedItems := b)
    case 3 => l.(showDataEntry := b)
    case 4 => l.(showThemeControls := b)
    case 5 => l.(showConnection := b)
    case _ => l.(showSampleBrowser := b)
  }

  /** The `i`-th switch, in `BoolKeys` order. */
  function Switch(l: Layout, i: nat): bool
    requires i < 7
  {
    match i
    case 0 => l.showSearch
    case 1 => l.showHistory
    case 2 => l.showSavedItems
    case 3 => l.showDataEntry
    case 4 => l.showThemeControls
    case 5 => l.showConnection
    case _ => l.showSampleBrowser
  }

  /** The `i`-th string field, in `StringKeys` order, is set to `v`. */
  function SetString(s: Settings, i: nat, v: string): Settings
    requires i < 4
  {
    match i
    case 0 => s.(theme := Some(v))
    case 1 => s.(background := Some(v))
    case 2 => s.(foreground := Some(v))
    case _ => s.(accent := Some(v))
  }

  /** The position of the first key in `keys` that `key` equals ignoring case. */
  function KeyIndex(keys: seq<string>, key: string): (r: Option<nat>)
    ensures r.Some? ==> r.value < |keys| && EqualsIgnoreCase(key, keys[r.value])
    ensures r.Some? ==> forall j :: 0 <= j < r.value ==> !EqualsIgnoreCase(key, keys[j])
    ensures r.None? ==> forall j :: 0 <= j < |keys| ==> !EqualsIgnoreCase(key, keys[j])
  {
    if keys == [] then None
    else if EqualsIgnoreCase(key, keys[0]) then Some(0)
    else match KeyIndex(keys[1..], key)
      case Some(j) => Some(j + 1)
      case None => None
  }

  /** The settings after `deer_apply_config_entry(key, value)`. */
  function Applied(s: Settings, key: string, value: string): (r: Settings)
    ensures KeyIndex(StringKeys, key).None? ==> r.(layout := s.layout) == s
    ensures KeyIndex(BoolKeys, key).None? ==> r.layout == s.layout
    ensures StringsSet(s) ==> StringsSet(r)
  {
    match KeyIndex(StringKeys, key)
    case Some(i) => SetString(s, i, value)
    case None =>
      match KeyIndex(BoolKeys, key)
      case Some(i) => s.(layout := SetSwitch(s.layout, i, ParseBool(Some(value), Switch(s.layout, i))))
      case None => s
  }

  /** Keys are matched ignoring case. */
  lemma {:induction false} KeyIndexIgnoresCase(keys: seq<string>, key: string)
    ensures KeyIndex(keys, Lower(key)) == KeyIndex(keys, key)
  {
    LowerIdempotent(key);
    if keys != [] {
      KeyIndexIgnoresCase(keys[1..], key);
    }
  }

  lemma AppliedIgnoresCase(s: Settings, key: string, value: string)
    ensures Applied(s, Lower(key), value) == Applied(s, key, value)
  {
    KeyIndexIgnoresCase(StringKeys, key);
    KeyIndexIgnoresCase(BoolKeys, key);
  }

  /** A string key replaces its own field with the value and leaves everything else. */
  lemma AppliedString(s: Settings, key: string, value: string, i: nat)
    requires i < 4 && EqualsIgnoreCase(key, StringKeys[i])
    ensures Applied(s, key, value) == SetString(s, i, value)
  {
    KeyMatchesOne(StringKeys, key, i);
  }

  /** A switch key parses the value with the switch's current setting as the fallback and leaves
      everything else. */
  lemma AppliedSwitch(s: Settings, key: string, value: string, i: nat)
    requires i < 7 && EqualsIgnoreCase(key, BoolKeys[i])
    ensures Applied(s, key, value) == s.(layout := SetSwitch(s.layout, i, ParseBool(Some(value), Switch(s.layout, i))))
  {
    KeyMatchesOne(BoolKeys, key, i);
    KeyMissing(StringKeys, key, BoolKeys[i]);
  }

  /** An unknown key changes nothing. */
  lemma AppliedUnknown(s: Settings, key: string, value: string)
    requires forall j :: 0 <= j < |StringKeys| ==> !EqualsIgnoreCase(key, StringKeys[j])
    requires forall j :: 0 <= j < |BoolKeys| ==> !EqualsIgnoreCase(key, BoolKeys[j])
    ensures Applied(s, key, value) == s
  {
  }

  /** Distinct keys of a list never match the same text: all keys are lower case and different. */
  lemma KeyMatchesOne(keys: seq<string>, key: string, i: nat)
    requires keys == StringKeys || keys == BoolKeys
    requires i < |keys| && EqualsIgnoreCase(key, keys[i])
    ensures KeyIndex(keys, key) == Some(i)
  {
    LowerKeys(keys);
  }

  /** No switch key is also a string key. */
  lemma KeyMissing(keys: seq<string>, key: string, other: string)
    requires keys == StringKeys && other in BoolKeys && EqualsIgnoreCase(key, other)
    ensures KeyIndex(keys, key) == None
  {
    if KeyIndex(keys, key).Some? {
      var j := KeyIndex(keys, key).value;
      assert Lower(keys[j]) == Lower(other);
      LowerKeys(StringKeys);
      LowerKeys(BoolKeys);
      assert keys[j] == other;
    }
  }

  /** The keys are written in lower case, so lower-casing them changes nothing. */
  lemma LowerKeys(keys: seq<string>)
    requires keys == StringKeys || keys == BoolKeys
    ensures forall j :: 0 <= j < |keys| ==> Lower(keys[j]) == keys[j]
  {
    forall j | 0 <= j < |keys| ensures Lower(keys[j]) == keys[j] {
      var k := keys[j];
      forall c | 0 <= c < |k| ensures LowerChar(k[c]) == k[c] {
        assert k[c] == '_' || 'a' <= k[c] <= 'z';
      }
    }
  }

  // ---------------------------------------------------------------------------
  // Loading

  /** The lines `fgets` hands out for a 256-byte buffer: up to and including a newline, at most 255 bytes. */
  function ChunkLength(text: string): (n: nat)
    requires text != []
    ensures 0 < n <= |text| && n <= 255
  {
    match FindChar(text, '\n', 0)
    case Some(k) => if k + 1 <= 255 then k + 1 else Min(255, |text|)
    case None => Min(255, |text|)
  }

  function Chunks(text: string): (r: seq<string>)
    decreases |text|
    ensures forall i :: 0 <= i < |r| ==> 0 < |r[i]| <= 255
  {
    if text == [] then [] else [text[..ChunkLength(text)]] + Chunks(text[ChunkLength(text)..])
  }

  function Joined(lines: seq<string>): string {
    if lines == [] then [] else lines[0] + Joined(lines[1..])
  }

  /** Reading line by line loses nothing: the lines put back together are the file's text, and a
      newline can only end a line. */
  lemma {:induction false} ChunksJoin(text: string)
    decreases |text|
    ensures Joined(Chunks(text)) == text
    ensures forall i :: 0 <= i < |Chunks(text)| ==> '\n' !in Chunks(text)[i][..|Chunks(text)[i]| - 1]
  {
    if text != [] {
      var n := ChunkLength(text);
      ChunksJoin(text[n..]);
      assert text[..n] + text[n..] == text;
      var r := Chunks(text);
      assert r == [text[..n]] + Chunks(text[n..]);
      assert r[1..] == Chunks(text[n..]);
      assert '\n' !in text[..n][..n - 1] by {
        forall k | 0 <= k < n - 1 ensures text[k] != '\n' {
        }
      }
      forall i | 0 <= i < |r| ensures '\n' !in r[i][..|r[i]| - 1] {
        if i > 0 {
          assert r[i] == Chunks(text[n..])[i - 1];
        }
      }
    }
  }

  /** One line of the loading loop: nothing without an `=`; otherwise the trimmed text before the
      first `=` is the key and the trimmed rest the value. */
  function AppliedLine(s: Settings, line: string): (r: Settings)
    ensures '=' !in line ==> r == s
    ensures StringsSet(s) ==> StringsSet(r)
  {
    match FindChar(line, '=', 0)
    case None => s
    case Some(k) => Applied(s, Trimmed(line[..k]), Trimmed(line[k + 1..]))
  }

  /** Every string setting holds a value. */
  predicate StringsSet(s: Settings) {
    s.theme.Some? && s.background.Some? && s.foreground.Some? && s.accent.Some?
  }

  /** Loading lines never removes a string setting: entries only ever write values. */
  function AppliedLines(s: Settings, lines: seq<string>): (r: Settings)
    ensures StringsSet(s) ==> StringsSet(r)
  {
    if lines == [] then s else AppliedLine(AppliedLines(s, lines[..|lines| - 1]), lines[|lines| - 1])
  }

  /** Lines without `=` change nothing. */
  lemma {:induction false} AppliedLinesWithoutEntries(s: Settings, lines: seq<string>)
    requires forall i :: 0 <= i < |lines| ==> '=' !in lines[i]
    ensures AppliedLines(s, lines) == s
  {
    if lines != [] {
      AppliedLinesWithoutEntries(s, lines[..|lines| - 1]);
    }
  }

  /** A line is split at its first `=`, so a value may itself contain `=`. */
  lemma AppliedLineSplit(s: Settings, key: string, value: string)
    requires '=' !in key
    ensures AppliedLine(s, key + "=" + value) == Applied(s, Trimmed(key), Trimmed(value))
  {
    var line := key + "=" + value;
    forall j | 0 <= j < |key| ensures line[j] != '=' {
      assert line[j] == key[j];
    }
    assert line[|key|] == '=';
    assert FindChar(line, '=', 0) == Some(|key|);
    assert line[..|key|] == key;
    assert line[|key| + 1..] == value;
  }

  /** What `deer_load_ui_config` is given: no path, a path that cannot be opened, or a file's text. */
  datatype Source = NoPath | Unreadable | File(text: string)

  /** `DeerUiConfig`. */
  class UiConfig {
    var theme: Option<string>
    var background: Option<string>
    var foreground: Option<string>
    var accent: Option<string>
    var layout: Layout

    function Current(): Settings
      reads this
    {
      Settings(theme, background, foreground, accent, layout)
    }

    /** `DeerUiConfig config = {0}`. */
    constructor ()
      ensures Current() == Settings(None, None, None, None, Layout(false, false, false, false, false, false, false))
    {
      theme, background, foreground, accent := None, None, None, None;
      layout := Layout(false, false, false, false, false, false, false);
    }

    /** `deer_ui_config_use_defaults`. */
    method UseDefaults()
      modifies this
      ensures Current() == Defaults()
    {
      theme := Some(DefaultTheme);
      background := Some(DefaultBackground);
      foreground := Some(DefaultForeground);
      accent := Some(DefaultAccent);
      layout := AllShown;
    }

    /** `deer_free_ui_config`: the four strings are released and set to null; the layout stays. */
    method Free()
      modifies this
      ensures Current() == old(Current()).(theme := None, background := None, foreground := None, accent := None)
    {
      theme, background, foreground, accent := None, None, None, None;
    }

    /** `deer_apply_config_entry`. */
    method ApplyEntry(key: string, value: string)
      modifies this
      ensures Current() == Applied(old(Current()), key, value)
    {
      var stringKey := KeyIndex(StringKeys, key);
      var boolKey := KeyIndex(BoolKeys, key);
      if stringKey == Some(0) {
        theme := Some(value);
      } else if stringKey == Some(1) {
        background := Some(value);
      } else if stringKey == Some(2) {
        foreground := Some(value);
      } else if stringKey == Some(3) {
        accent := Some(value);
      } else if boolKey == Some(0) {
        layout := layout.(showSearch := ParseBool(Some(value), layout.showSearch));
      } else if boolKey == Some(1) {
        layout := layout.(showHistory := ParseBool(Some(value), layout.showHistory));
      } else if boolKey == Some(2) {
        layout := layout.(showSavedItems := ParseBool(Some(value), layout.showSavedItems));
      } else if boolKey == Some(3) {
        layout := layout.(showDataEntry := ParseBool(Some(value), layout.showDataEntry));
      } else if boolKey == Some(4) {
        layout := layout.(showThemeControls := ParseBool(Some(value), layout.showThemeControls));
      } else if boolKey == Some(5) {
        layout := layout.(showConnection := ParseBool(Some(value), layout.showConnection));
      } else if boolKey == Some(6) {
        layout := layout.(showSampleBrowser := ParseBool(Some(value), layout.showSampleBrowser));
      }
    }

    /** One pass of the loading loop: split at the first `=`, trim both sides, apply. */
    method ApplyLine(line: string)
      modifies this
      ensures Current() == AppliedLine(old(Current()), line)
    {
      var equals := FindChar(line, '=', 0);
      if equals.Some? {
        var ks, ke := Trim(line[..equals.value]);
        var vs, ve := Trim(line[equals.value + 1..]);
        ApplyEntry(line[..equals.value][ks..ke], line[equals.value + 1..][vs..ve]);
      }
    }

    /** `deer_load_ui_config`: free, reset to the defaults, then apply every line of the file. */
    method Load(source: Source) returns (ok: bool)
      modifies this
      ensures ok == source.File?
      ensures Current() == if source.File? then AppliedLines(Defaults(), Chunks(source.text)) else Defaults()
      ensures StringsSet(Current())
    {
      Free();
      UseDefaults();
      if source.NoPath? || source.Unreadable? {
        return false;
      }
      var lines := Chunks(source.text);
      var i := 0;
      while i < |lines|
        invariant 0 <= i <= |lines|
        invariant Current() == AppliedLines(Defaults(), lines[..i])
      {
        assert lines[..i + 1][..i] == lines[..i];
        assert AppliedLines(Defaults(), lines[..i + 1]) == AppliedLine(AppliedLines(Defaults(), lines[..i]), lines[i]);
        ApplyLine(lines[i]);
        i := i + 1;
      }
      assert lines[..i] == lines;
      ok := true;
    }
  }
}
