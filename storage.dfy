/** The texts of the built-in records `bourne_storage_init` falls back on
    (bourne/src/storage.c:151-160), kept as short pieces so that facts about their characters
    stay cheap to prove. */
module Builtin {
  const AriannaTitle := "Person \U{00B7} " + "Arianna " + "Patel"
  const AriannaSummary := "Urban" + " planner" + " focused" + " on" + " adaptive" + " reuse" + " and" + " transit" + " equity."
  const AriannaRaw := "{\"type\":" + "\"person\"," + "\"notes\":" + "\"Prefers " + "cool " + "palettes\"}"
  const FelixTitle := "Person \U{00B7} " + "Felix " + "Moreno"
  const FelixSummary := "CTO" + " translating" + " sensor" + " data" + " into" + " neighborhood" + " analytics."
  const FelixRaw := "{\"type\":" + "\"person\"," + "\"notes\":" + "\"Midnight " + "blue " + "interfaces\"}"
  const SolsticeTitle := "Car \U{00B7} " + "Solstice " + "LX"
  const SolsticeSummary :=
    "2021" + " plug-in" + " hybrid" + " sedan" + " in" + " satin" + " graphite" + " with" + " panoramic" + " roof."
  const SolsticeRaw := "{\"type\":" + "\"car\"," + "\"year\":" + "2021}"
  const HarborTitle := "Home \U{00B7} " + "Harbor " + "Loft"
  const HarborSummary :=
    "Adaptive" + " reuse" + " loft" + " with" + " exposed" + " brick" + " and" + " soft" + " amber" + " lighting."
  const HarborRaw := "{\"type\":" + "\"home\"," + "\"location\":" + "\"Baltimore\"}"

  /** The first built-in record's title is 22 characters long and its summary opens with "Urban". */
  lemma AriannaOpens()
    ensures |AriannaTitle| == 22 && AriannaSummary[..5] == "Urban"
  {
  }

  /** The built-in texts lack the `-` of the token `nonexistent-token`, except one summary,
      which lacks its `k` in both cases instead. */
  lemma TitlesLackDash()
    ensures '-' !in AriannaTitle && '-' !in FelixTitle && '-' !in SolsticeTitle && '-' !in HarborTitle
  {
  }

  lemma RawsLackDash()
    ensures '-' !in AriannaRaw && '-' !in FelixRaw && '-' !in SolsticeRaw && '-' !in HarborRaw
  {
  }

  lemma PersonSummariesLackDash()
    ensures '-' !in AriannaSummary && '-' !in FelixSummary
  {
  }

  lemma HarborSummaryLacksDash()
    ensures '-' !in HarborSummary
  {
  }

  lemma SolsticeSummaryLacksK()
    ensures 'k' !in SolsticeSummary && 'K' !in SolsticeSummary
  {
  }
}

/** The back-end record table (bourne/src/storage.c): a capacity-bounded,
    insertion-ordered array of records, the tolerant field extraction used to
    fill a record from a JSON-like payload, the brace scanner that splits a
    bulk source into fragments, and case-insensitive search. */
module Storage {
  import opened Text
  import opened Builtin

  datatype Record = Record(title: string, summary: string, raw: string)

  const EmptyRecord := Record("", "", "")

  /** The table's capacity and the sizes of the three character arrays of a record.
      The header that fixes them is not part of this model, so they are parameters. */
  datatype Limits = Limits(capacity: nat, titleSize: nat, summarySize: nat, rawSize: nat) {
    predicate Valid() {
      capacity > 0 && titleSize > 0 && summarySize > 0 && rawSize > 0
    }
  }

  // ---------------------------------------------------------------------------
  // Status messages

  const PercentZu := "%zu"

  /** `bourne_set_message`: writes `format`, with its `%zu` replaced by `value`, into a
      message buffer of `messageLen` bytes; `None` when there is no room to write at all. */
  function SetMessage(format: string, value: nat, messageLen: nat): (r: Option<string>)
    ensures r.None? <==> messageLen == 0
    ensures r.Some? ==> |r.value| < messageLen
  {
    if messageLen == 0 then None
    else match FindFrom(format, PercentZu, 0)
      case None => Some(Truncate(format, messageLen - 1))
      case Some(k) => Some(Truncate(format[..k] + NatToString(value) + format[k + 3..], messageLen - 1))
  }

  /** A format whose only `%` is one `%zu` is filled in with the decimal value. */
  lemma SetMessageFills(prefix: string, suffix: string, value: nat, messageLen: nat)
    requires messageLen > 0
    requires forall k :: 0 <= k < |prefix| ==> prefix[k] != '%'
    requires forall k :: 0 <= k < |suffix| ==> suffix[k] != '%'
    ensures SetMessage(prefix + PercentZu + suffix, value, messageLen)
         == Some(Truncate(prefix + NatToString(value) + suffix, messageLen - 1))
  {
    var f := prefix + PercentZu + suffix;
    assert f[|prefix|..|prefix| + 3] == PercentZu;
    forall k | 0 <= k < |prefix| ensures !OccursAt(f, PercentZu, k) {
      assert f[k] == prefix[k];
      if k + 3 <= |f| {
        assert f[k..k + 3][0] == f[k];
      }
    }
    assert OccursAt(f, PercentZu, |prefix|);
    var found := FindFrom(f, PercentZu, 0);
    assert found == Some(|prefix|);
    assert f[..|prefix|] == prefix;
    assert f[|prefix| + 3..] == suffix;
  }

  /** A format without `%` is copied as it is. */
  lemma SetMessageLiteral(format: string, value: nat, messageLen: nat)
    requires messageLen > 0
    requires forall k :: 0 <= k < |format| ==> format[k] != '%'
    ensures SetMessage(format, value, messageLen) == Some(Truncate(format, messageLen - 1))
  {
    forall k | 0 <= k ensures !OccursAt(format, PercentZu, k) {
      if k + 3 <= |format| {
        assert format[k..k + 3][0] == format[k];
      }
    }
  }

  // ---------------------------------------------------------------------------
  // Field extraction

  /** The pattern `"<key>"` as built by `snprintf` into a 64-byte buffer. */
  function KeyPattern(key: string): string {
    Truncate("\"" + key + "\"", 63)
  }

  /** `extract_field`: the text between the first pair of double quotes that follows the first
      colon that follows the first `"<key>"`, truncated to fit a buffer of `bufferLen` bytes.
      `None` when the key, the colon, either quote is missing, or the value is empty. */
  function ExtractField(entry: string, key: string, bufferLen: nat): (r: Option<string>)
    ensures r.Some? ==> |r.value| < bufferLen && (bufferLen > 1 ==> |r.value| > 0) && '"' !in r.value
    ensures r.Some? ==> exists k :: OccursAt(entry, KeyPattern(key), k)
    ensures r.Some? ==> exists k :: OccursAt(entry, r.value, k)
  {
    if bufferLen == 0 then None
    else match FindFrom(entry, KeyPattern(key), 0)
      case None => None
      case Some(found) =>
        match FindChar(entry, ':', found)
        case None => None
        case Some(colon) =>
          match FindChar(entry, '"', colon)
          case None => None
          case Some(open) =>
            match FindChar(entry, '"', open + 1)
            case None => None
            case Some(close) =>
              if close <= open + 1 then None
              else
                var v := Truncate(entry[open + 1..close], bufferLen - 1);
                assert OccursAt(entry, KeyPattern(key), found);
                assert entry[open + 1..open + 1 + |v|] == v;
                assert forall j :: 0 <= j < |v| ==> v[j] == entry[open + 1 + j];
                assert OccursAt(entry, v, open + 1);
                Some(v)
  }

  /** The text `"<key>":<gap>"<value>"` of one member of a JSON-like object. */
  function Member(key: string, gap: string, value: string): string {
    "\"" + key + "\"" + ":" + gap + "\"" + value + "\""
  }

  lemma FindFromAt(s: string, pattern: string, from: nat, k: nat)
    requires from <= k && OccursAt(s, pattern, k)
    requires forall j :: from <= j < k ==> !OccursAt(s, pattern, j)
    ensures FindFrom(s, pattern, from) == Some(k)
  {
  }

  lemma FindCharAt(s: string, c: char, from: nat, k: nat)
    requires from <= k < |s| && s[k] == c
    requires forall j :: from <= j < k ==> s[j] != c
    ensures FindChar(s, c, from) == Some(k)
  {
  }

  /** `entry` holds, at `found`, the first `"<key>"` (which has no colon), then text without a
      colon up to the colon at `colon`, then text without quotes up to the quote at `open`, then
      a non-empty value up to the quote at `close`. */
  predicate FieldLayout(entry: string, key: string, found: nat, colon: nat, open: nat, close: nat) {
    ':' !in KeyPattern(key) &&
    OccursAt(entry, KeyPattern(key), found) &&
    (forall k :: 0 <= k < found ==> !OccursAt(entry, KeyPattern(key), k)) &&
    found + |KeyPattern(key)| <= colon < open < close < |entry| &&
    entry[colon] == ':' &&
    (forall k :: found + |KeyPattern(key)| <= k < colon ==> entry[k] != ':') &&
    (forall k :: colon < k < open ==> entry[k] != '"') &&
    entry[open] == '"' && entry[close] == '"' &&
    open + 1 < close && '"' !in entry[open + 1..close]
  }

  /** The field extracted when `entry` holds, at `found`, the first `"<key>"`, then the first
      colon after it, then text without quotes up to the quote at `open`, then the value up to
      the quote at `close`. */
  lemma ExtractFieldAt(entry: string, key: string, bufferLen: nat, found: nat, colon: nat, open: nat, close: nat)
    requires bufferLen > 0 && FieldLayout(entry, key, found, colon, open, close)
    ensures ExtractField(entry, key, bufferLen) == Some(Truncate(entry[open + 1..close], bufferLen - 1))
  {
    var p := KeyPattern(key);
    FindFromAt(entry, p, 0, found);
    forall k | found <= k < colon ensures entry[k] != ':' {
      if k < found + |p| {
        assert entry[k] == entry[found..found + |p|][k - found] == p[k - found];
      }
    }
    FindCharAt(entry, ':', found, colon);
    FindCharAt(entry, '"', colon, open);
    forall k | open + 1 <= k < close ensures entry[k] != '"' {
      assert entry[k] == entry[open + 1..close][k - open - 1];
    }
    FindCharAt(entry, '"', open + 1, close);
    ExtractFieldFound(entry, key, bufferLen, found, colon, open, close);
  }

  /** `extract_field` once its four searches have succeeded. */
  lemma ExtractFieldFound(entry: string, key: string, bufferLen: nat, found: nat, colon: nat, open: nat, close: nat)
    requires bufferLen > 0 && open + 1 < close <= |entry|
    requires FindFrom(entry, KeyPattern(key), 0) == Some(found)
    requires FindChar(entry, ':', found) == Some(colon)
    requires FindChar(entry, '"', colon) == Some(open)
    requires FindChar(entry, '"', open + 1) == Some(close)
    ensures ExtractField(entry, key, bufferLen) == Some(Truncate(entry[open + 1..close], bufferLen - 1))
  {
  }

  /** The characters of one member, by position. */
  lemma MemberShape(key: string, gap: string, value: string)
    requires '"' !in gap
    ensures var m := Member(key, gap, value); var n := |key| + 2;
      |m| == n + |gap| + |value| + 3 && m[..n] == "\"" + key + "\"" && m[n] == ':' &&
      (forall k :: n < k <= n + |gap| ==> m[k] != '"') && m[n + 1 + |gap|] == '"' &&
      m[n + |gap| + 2..|m| - 1] == value && m[|m| - 1] == '"'
  {
    var n := |key| + 2;
    var m := Member(key, gap, value);
    var p := "\"" + key + "\"";
    var rest := [':'] + gap + "\"" + value + "\"";
    assert m == p + rest;
    forall k | n < k <= n + |gap| ensures m[k] != '"' {
      assert m[k] == rest[k - n] == gap[k - n - 1];
    }
  }

  /** The field extracted from a payload `pre + "<key>":<gap>"<value>" + post`, where the key
      does not occur earlier, is exactly the value, truncated to the buffer. */
  lemma ExtractFieldOfMember(pre: string, key: string, gap: string, value: string, post: string, bufferLen: nat)
    requires bufferLen > 0 && |key| <= 61
    requires ':' !in key && '"' !in key && '"' !in gap && '"' !in value && value != []
    requires forall k :: 0 <= k < |pre| ==> !OccursAt(pre + Member(key, gap, value) + post, KeyPattern(key), k)
    ensures ExtractField(pre + Member(key, gap, value) + post, key, bufferLen) == Some(Truncate(value, bufferLen - 1))
  {
    var p := "\"" + key + "\"";
    assert KeyPattern(key) == p;
    assert ':' !in p by {
      forall k | 0 <= k < |p| ensures p[k] != ':' {
        if 0 < k < |p| - 1 { assert p[k] == key[k - 1]; }
      }
    }
    MemberShape(key, gap, value);
    var m := Member(key, gap, value);
    var e := pre + m + post;
    assert e[|pre|..|pre| + |m|] == m;
    var colon, open, close := ExtractFieldIn(e, |pre|, m, key, |gap|, value);
    ExtractFieldAt(e, key, bufferLen, |pre|, colon, open, close);
  }

  lemma ExtractFieldIn(e: string, f: nat, m: string, key: string, g: nat, value: string) returns (colon: nat, open: nat, close: nat)
    requires ':' !in KeyPattern(key) && '"' !in value && value != []
    requires var n := |KeyPattern(key)|;
      |m| == n + g + |value| + 3 && m[..n] == KeyPattern(key) && m[n] == ':' &&
      (forall k :: n < k <= n + g ==> m[k] != '"') && m[n + 1 + g] == '"' &&
      m[n + g + 2..|m| - 1] == value && m[|m| - 1] == '"'
    requires f + |m| <= |e| && e[f..f + |m|] == m
    requires forall k :: 0 <= k < f ==> !OccursAt(e, KeyPattern(key), k)
    ensures FieldLayout(e, key, f, colon, open, close) && e[open + 1..close] == value
  {
    var n := |KeyPattern(key)|;
    colon := f + n;
    open := f + n + 1 + g;
    close := f + |m| - 1;
    SliceWithin(e, f, m, 0, n);
    assert m[0..n] == m[..n];
    SliceWithin(e, f, m, n + g + 2, |m| - 1);
    assert e[f + n] == m[n] by { assert e[f..f + |m|][n] == e[f + n]; }
    assert e[open] == m[n + 1 + g] by { assert e[f..f + |m|][n + 1 + g] == e[open]; }
    assert e[close] == m[|m| - 1] by { assert e[f..f + |m|][|m| - 1] == e[close]; }
    forall k | f + n < k < open ensures e[k] != '"' {
      assert e[k] == e[f..f + |m|][k - f];
    }
  }

  /** A slice of a text found inside another is the matching slice of the other. */
  lemma SliceWithin(e: string, f: nat, m: string, i: nat, j: nat)
    requires f + |m| <= |e| && e[f..f + |m|] == m && i <= j <= |m|
    ensures e[f + i..f + j] == m[i..j]
  {
    forall k | 0 <= k < j - i ensures e[f + i..f + j][k] == m[i..j][k] {
      assert e[f + i + k] == e[f..f + |m|][i + k];
    }
  }

  /** A missing key, or a buffer without room, yields no field. */
  lemma ExtractFieldMissing(entry: string, key: string, bufferLen: nat)
    requires (forall k :: !OccursAt(entry, KeyPattern(key), k)) || bufferLen == 0
    ensures ExtractField(entry, key, bufferLen) == None
  {
  }

  /** No colon after the first `"<key>"` yields no field. */
  lemma ExtractFieldNoColon(entry: string, key: string, bufferLen: nat, found: nat)
    requires FindFrom(entry, KeyPattern(key), 0) == Some(found)
    requires forall k :: found <= k < |entry| ==> entry[k] != ':'
    ensures ExtractField(entry, key, bufferLen) == None
  {
  }

  /** No opening quote after the colon at `colon` (the first after the key) yields no field. */
  lemma ExtractFieldNoQuote(entry: string, key: string, bufferLen: nat, found: nat, colon: nat)
    requires FindFrom(entry, KeyPattern(key), 0) == Some(found)
    requires found <= colon < |entry| && entry[colon] == ':' && forall k :: found <= k < colon ==> entry[k] != ':'
    requires forall k :: colon <= k < |entry| ==> entry[k] != '"'
    ensures ExtractField(entry, key, bufferLen) == None
  {
    FindCharAt(entry, ':', found, colon);
  }

  /** An opening quote at `open` (the first after the colon) with no closing quote after it yields
      no field. */
  lemma ExtractFieldUnclosed(entry: string, key: string, bufferLen: nat, found: nat, colon: nat, open: nat)
    requires FindFrom(entry, KeyPattern(key), 0) == Some(found)
    requires found <= colon < |entry| && entry[colon] == ':' && forall k :: found <= k < colon ==> entry[k] != ':'
    requires colon < open < |entry| && entry[open] == '"' && forall k :: colon <= k < open ==> entry[k] != '"'
    requires forall k :: open < k < |entry| ==> entry[k] != '"'
    ensures ExtractField(entry, key, bufferLen) == None
  {
    FindCharAt(entry, ':', found, colon);
    FindCharAt(entry, '"', colon, open);
    ExtractFieldThrough(entry, key, bufferLen, found, colon, open);
  }

  /** The first quote after the colon directly followed by another, an empty value, yields no field. */
  lemma ExtractFieldEmptyValue(entry: string, key: string, bufferLen: nat, found: nat, colon: nat, open: nat)
    requires FindFrom(entry, KeyPattern(key), 0) == Some(found)
    requires FindChar(entry, ':', found) == Some(colon)
    requires FindChar(entry, '"', colon) == Some(open)
    requires open + 1 < |entry| && entry[open + 1] == '"'
    ensures ExtractField(entry, key, bufferLen) == None
  {
    FindCharAt(entry, '"', open + 1, open + 1);
    ExtractFieldClosed(entry, key, bufferLen, found, colon, open, open + 1);
  }

  /** `extract_field` once all four searches have succeeded: the value between the quotes, or
      nothing when it is empty. */
  lemma ExtractFieldClosed(entry: string, key: string, bufferLen: nat, found: nat, colon: nat, open: nat, close: nat)
    requires FindFrom(entry, KeyPattern(key), 0) == Some(found)
    requires FindChar(entry, ':', found) == Some(colon)
    requires FindChar(entry, '"', colon) == Some(open)
    requires FindChar(entry, '"', open + 1) == Some(close)
    ensures ExtractField(entry, key, bufferLen) ==
      if bufferLen == 0 || close <= open + 1 then None else Some(Truncate(entry[open + 1..close], bufferLen - 1))
  {
  }

  /** `extract_field` once the key, the colon and the opening quote are found: it depends only on
      the closing quote. */
  lemma ExtractFieldThrough(entry: string, key: string, bufferLen: nat, found: nat, colon: nat, open: nat)
    requires FindFrom(entry, KeyPattern(key), 0) == Some(found)
    requires FindChar(entry, ':', found) == Some(colon)
    requires FindChar(entry, '"', colon) == Some(open)
    ensures ExtractField(entry, key, bufferLen) ==
      if bufferLen == 0 then None
      else match FindChar(entry, '"', open + 1)
        case None => None
        case Some(close) => if close <= open + 1 then None else Some(Truncate(entry[open + 1..close], bufferLen - 1))
  {
  }

  // ---------------------------------------------------------------------------
  // Trimming

  predicate IsQuoteOrSpace(c: char) {
    c == '"' || IsSpace(c)
  }

  /** Where `trim_quotes` starts its result: after leading whitespace and at most one quote. */
  function QuoteStart(s: string): (r: nat)
    ensures r <= |s|
  {
    var i := SpaceEnd(s, 0);
    if i < |s| && s[i] == '"' then i + 1 else i
  }

  /** The start skips only whitespace and then at most one quote: when it stops at a quote or a
      blank, the character before it is the one quote it skipped. */
  lemma QuoteStartSkips(s: string)
    ensures forall k :: 0 <= k < QuoteStart(s) ==> IsSpace(s[k]) || (k == QuoteStart(s) - 1 && s[k] == '"')
    ensures QuoteStart(s) < |s| && IsQuoteOrSpace(s[QuoteStart(s)]) ==> QuoteStart(s) > 0 && s[QuoteStart(s) - 1] == '"'
  {
  }

  /** Where `trim_quotes` writes its terminator: before all trailing quotes and whitespace. */
  function QuoteEnd(s: string): (r: nat)
    ensures QuoteStart(s) <= r <= |s|
  {
    RetreatWhile(s, QuoteStart(s), |s|, IsQuoteOrSpace)
  }

  /** The string `trim_quotes` returns. */
  function TrimmedQuotes(s: string): (r: string)
    ensures r == [] || !IsQuoteOrSpace(r[|r| - 1])
    ensures forall k :: 0 <= k < QuoteStart(s) ==> IsQuoteOrSpace(s[k])
    ensures forall k :: QuoteEnd(s) <= k < |s| ==> IsQuoteOrSpace(s[k])
    ensures r == s[QuoteStart(s)..QuoteEnd(s)]
  {
    s[QuoteStart(s)..QuoteEnd(s)]
  }

  /** Only the first of several leading quotes is dropped, and a blank after it stays. */
  lemma TrimmedQuotesExamples()
    ensures TrimmedQuotes("\"\"ab\"") == "\"ab"
    ensures TrimmedQuotes("\" ab\"") == " ab"
  {
    var s1, s2 := "\"\"ab\"", "\" ab\"";
    assert SpaceEnd(s1, 0) == 0 && QuoteStart(s1) == 1;
    assert RetreatWhile(s1, 1, 4, IsQuoteOrSpace) == 4;
    assert QuoteEnd(s1) == 4;
    assert s1[1..4] == "\"ab";
    assert SpaceEnd(s2, 0) == 0 && QuoteStart(s2) == 1;
    assert RetreatWhile(s2, 1, 4, IsQuoteOrSpace) == 4;
    assert QuoteEnd(s2) == 4;
    assert s2[1..4] == " ab";
  }

  /** `trim_quotes`: returns where the result starts and where the NUL was written. */
  method TrimQuotes(text: string) returns (start: nat, end: nat)
    ensures start == QuoteStart(text) && end == QuoteEnd(text)
  {
    start := 0;
    while start < |text| && IsSpace(text[start])
      invariant start <= |text| && SpaceEnd(text, start) == SpaceEnd(text, 0)
    {
      start := start + 1;
    }
    if start < |text| && text[start] == '"' {
      start := start + 1;
    }
    end := |text|;
    while end > start && IsQuoteOrSpace(text[end - 1])
      invariant start <= end <= |text|
      invariant RetreatWhile(text, start, end, IsQuoteOrSpace) == RetreatWhile(text, start, |text|, IsQuoteOrSpace)
    {
      end := end - 1;
    }
  }

  lemma SpaceEndPrefix(s: string, i: nat, e: nat)
    requires i <= e <= |s| && SpaceEnd(s, i) <= e
    decreases e - i
    ensures SpaceEnd(s[..e], i) == SpaceEnd(s, i)
  {
    if i < e && IsSpace(s[i]) {
      SpaceEndPrefix(s, i + 1, e);
    }
  }

  /** After `trim_quotes` has cut a buffer in place, trimming the buffer again gives the same
      text. `bourne_storage_store` relies on this when it trims `local` a second time. */
  lemma {:induction false} TrimQuotesStable(s: string)
    ensures TrimmedQuotes(s[..QuoteEnd(s)]) == TrimmedQuotes(s)
  {
    var e := QuoteEnd(s);
    var t := s[..e];
    var i0 := SpaceEnd(s, 0);
    SpaceEndPrefix(s, 0, e);
    assert SpaceEnd(t, 0) == i0;
    assert QuoteStart(t) == QuoteStart(s);
    var st := QuoteStart(s);
    if e > st {
      assert t[e - 1] == s[e - 1];
    }
    assert RetreatWhile(t, st, e, IsQuoteOrSpace) == e;
    assert QuoteEnd(t) == e;
  }

  /** What `sanitize_payload` leaves in a buffer of `bufferLen` bytes. */
  function Sanitized(payload: string, bufferLen: nat): (r: string)
    requires bufferLen > 0
    ensures |r| < bufferLen && r <= payload
    ensures r == [] || !IsLineBreak(r[|r| - 1])
  {
    StripLineBreaks(Truncate(payload, bufferLen - 1))
  }

  /** `sanitize_payload`: copy into the buffer, then strip trailing line breaks.
      `None` when the buffer has no room and is left untouched. */
  method SanitizePayload(payload: string, bufferLen: nat) returns (buffer: Option<string>)
    ensures buffer.None? <==> bufferLen == 0
    ensures buffer.Some? ==> buffer.value == Sanitized(payload, bufferLen)
  {
    if bufferLen == 0 {
      return None;
    }
    var copy := Truncate(payload, bufferLen - 1);
    var trimmed := TrimNewlines(copy);
    buffer := Some(trimmed);
  }

  // ---------------------------------------------------------------------------
  // Records

  /** The record `parse_entry` builds from one fragment: absent fields stay empty. */
  function EntryRecord(fragment: string, limits: Limits): (r: Record)
    requires limits.Valid()
    ensures |r.title| < limits.titleSize && |r.summary| < limits.summarySize && |r.raw| < limits.rawSize
    ensures r.raw <= TrimmedQuotes(fragment)
  {
    Record(ExtractField(fragment, "title", limits.titleSize).GetOr(""),
           ExtractField(fragment, "summary", limits.summarySize).GetOr(""),
           Truncate(TrimmedQuotes(fragment), limits.rawSize - 1))
  }

  function DefaultTitle(count: nat, limits: Limits): string
    requires limits.Valid()
  {
    Truncate("User entry " + NatToString(count + 1), limits.titleSize - 1)
  }

  /** The title of a stored entry: its `"title"` field, or `User entry <n>` for the `n`-th record. */
  function StoredTitle(local: string, count: nat, limits: Limits): (r: string)
    requires limits.Valid()
    ensures |r| < limits.titleSize
  {
    match ExtractField(local, "title", limits.titleSize)
    case Some(t) => t
    case None => DefaultTitle(count, limits)
  }

  /** The summary of a stored entry: its `"summary"` field, or the first 120 characters of the
      payload with its surrounding quotes and blanks trimmed. */
  function StoredSummary(local: string, limits: Limits): (r: string)
    requires limits.Valid()
    ensures |r| < limits.summarySize
  {
    match ExtractField(local, "summary", limits.summarySize)
    case Some(s) => s
    case None => Truncate(Truncate(TrimmedQuotes(local), 120), limits.summarySize - 1)
  }

  /** The record `bourne_storage_store` appends when the table holds `count` records. */
  function StoredRecord(payload: string, count: nat, limits: Limits): (r: Record)
    requires limits.Valid()
    ensures |r.title| < limits.titleSize && |r.summary| < limits.summarySize && |r.raw| < limits.rawSize
  {
    var local := Sanitized(payload, limits.rawSize);
    Record(StoredTitle(local, count, limits), StoredSummary(local, limits), Truncate(TrimmedQuotes(local), limits.rawSize - 1))
  }

  /** The defaults of a stored entry: without a `"title"` field the `n`-th record is titled
      `User entry <n>`; without a `"summary"` field the summary is the first 120 characters of the
      sanitized payload with its quotes and blanks trimmed. */
  lemma StoredDefaults(local: string, count: nat, limits: Limits)
    requires limits.Valid()
    ensures ExtractField(local, "title", limits.titleSize).None? ==>
      StoredTitle(local, count, limits) == Truncate("User entry " + NatToString(count + 1), limits.titleSize - 1)
    ensures ExtractField(local, "summary", limits.summarySize).None? ==>
      StoredSummary(local, limits) == Truncate(Truncate(TrimmedQuotes(local), 120), limits.summarySize - 1)
  {
  }

  /** The record `bourne_storage_store` builds in place before appending it. */
  method BuildStoredRecord(payload: string, count: nat, limits: Limits) returns (r: Record)
    requires limits.Valid()
    ensures r == StoredRecord(payload, count, limits)
  {
    var sanitized := SanitizePayload(payload, limits.rawSize);
    var local := sanitized.value;
    ghost var whole := local;
    var title := match ExtractField(local, "title", limits.titleSize)
      case Some(t) => t
      case None => DefaultTitle(count, limits);
    assert title == StoredTitle(whole, count, limits);
    var summary;
    match ExtractField(local, "summary", limits.summarySize) {
      case Some(s) =>
        summary := s;
      case None =>
        var qs, qe := TrimQuotes(local);
        summary := Truncate(Truncate(local[qs..qe], 120), limits.summarySize - 1);
        // `trim_quotes` wrote its terminator into `local`; trimming the cut text again is stable.
        TrimQuotesStable(local);
        local := local[..qe];
    }
    assert summary == StoredSummary(whole, limits);
    assert TrimmedQuotes(local) == TrimmedQuotes(whole);
    var qs, qe := TrimQuotes(local);
    r := Record(title, summary, Truncate(local[qs..qe], limits.rawSize - 1));
  }

  predicate StoreAccepts(payload: string, count: nat, limits: Limits) {
    payload != [] && count < limits.capacity
  }

  const NoPayloadFormat := "No payload provided"
  const FullFormat := "Storage full (%zu records)"
  const StoredFormat := "Stored entry #%zu"

  /** The status message `bourne_storage_store` writes. */
  function StoreMessage(payload: string, count: nat, limits: Limits, messageLen: nat): (r: Option<string>)
    ensures r.None? <==> messageLen == 0
    ensures r.Some? ==> |r.value| < messageLen
  {
    if payload == [] then SetMessage(NoPayloadFormat, 0, messageLen)
    else if count >= limits.capacity then SetMessage(FullFormat, count, messageLen)
    else SetMessage(StoredFormat, count + 1, messageLen)
  }

  /** An empty payload is refused with a fixed message. */
  lemma StoreMessageNoPayload(count: nat, limits: Limits, messageLen: nat)
    requires messageLen > 0
    ensures StoreMessage([], count, limits, messageLen) == Some(Truncate("No payload provided", messageLen - 1))
  {
    SetMessageLiteral(NoPayloadFormat, 0, messageLen);
  }

  /** A full table is reported with the number of records it holds. */
  lemma StoreMessageFull(payload: string, count: nat, limits: Limits, messageLen: nat)
    requires messageLen > 0 && payload != [] && count >= limits.capacity
    ensures StoreMessage(payload, count, limits, messageLen)
         == Some(Truncate("Storage full (" + NatToString(count) + " records)", messageLen - 1))
  {
    assert FullFormat == "Storage full (" + PercentZu + " records)";
    SetMessageFills("Storage full (", " records)", count, messageLen);
  }

  /** An accepted entry is reported with its 1-based position in the table. */
  lemma StoreMessageStored(payload: string, count: nat, limits: Limits, messageLen: nat)
    requires messageLen > 0 && StoreAccepts(payload, count, limits)
    ensures StoreMessage(payload, count, limits, messageLen)
         == Some(Truncate("Stored entry #" + NatToString(count + 1), messageLen - 1))
  {
    assert StoredFormat == "Stored entry #" + PercentZu + "";
    assert "Stored entry #" + NatToString(count + 1) + "" == "Stored entry #" + NatToString(count + 1);
    SetMessageFills("Stored entry #", "", count + 1, messageLen);
  }

  // ---------------------------------------------------------------------------
  // Fragments of a bulk source

  /** Every pair is a non-empty range within a text of length `n`. */
  predicate Spans(r: seq<(nat, nat)>, n: nat) {
    forall k :: 0 <= k < |r| ==> r[k].0 < r[k].1 <= n
  }

  lemma SpansSnoc(r: seq<(nat, nat)>, f: (nat, nat), n: nat)
    requires Spans(r, n) && f.0 < f.1 <= n
    ensures Spans(r + [f], n)
  {
  }

  /** The fragments `load_from_buffer` hands to `parse_entry`, as (start, end) index pairs, from
      position `i` on, with the scanner's brace depth and pending fragment start. */
  function ScanFrom(b: string, i: nat, depth: int, start: Option<nat>): (r: seq<(nat, nat)>)
    requires i <= |b| && (start.Some? ==> start.value < i)
    decreases |b| - i
    ensures Spans(r, |b|)
  {
    if i == |b| then []
    else if b[i] == '{' then
      ScanFrom(b, i + 1, depth + 1, if depth == 0 then Some(i) else start)
    else if b[i] == '}' then
      if depth - 1 == 0 && start.Some? then [(start.value, i + 1)] + ScanFrom(b, i + 1, 0, None)
      else ScanFrom(b, i + 1, depth - 1, start)
    else ScanFrom(b, i + 1, depth, start)
  }

  function NextDepth(c: char, depth: int): int {
    if c == '{' then depth + 1 else if c == '}' then depth - 1 else depth
  }

  /** The character `c` closes the pending top-level fragment. */
  predicate Closes(c: char, depth: int, start: Option<nat>) {
    c == '}' && depth - 1 == 0 && start.Some?
  }

  function NextStart(c: char, i: nat, depth: int, start: Option<nat>): Option<nat> {
    if c == '{' then (if depth == 0 then Some(i) else start)
    else if Closes(c, depth, start) then None
    else start
  }

  lemma ScanFromStep(b: string, i: nat, depth: int, start: Option<nat>)
    requires i < |b| && (start.Some? ==> start.value < i)
    ensures Closes(b[i], depth, start) ==>
      ScanFrom(b, i, depth, start) == [(start.value, i + 1)] + ScanFrom(b, i + 1, 0, None)
    ensures !Closes(b[i], depth, start) ==>
      ScanFrom(b, i, depth, start) == ScanFrom(b, i + 1, NextDepth(b[i], depth), NextStart(b[i], i, depth, start))
  {
  }

  function Fragments(b: string): (r: seq<(nat, nat)>)
    ensures Spans(r, |b|)
  {
    ScanFrom(b, 0, 0, None)
  }

  /** `{` counts +1 and `}` counts -1. */
  function Balance(s: string): int {
    if s == [] then 0
    else Balance(s[..|s| - 1]) + (if s[|s| - 1] == '{' then 1 else if s[|s| - 1] == '}' then -1 else 0)
  }

  /** Every non-empty prefix of `b[s..i]` has more `{` than `}`. */
  predicate PrefixesOpen(b: string, s: nat, i: nat)
    requires s <= i <= |b|
  {
    forall k :: s < k <= i ==> Balance(b[s..k]) > 0
  }

  /** `b[s..e]` is one top-level balanced fragment: it starts where the braces read so far are
      balanced, opens with `{`, and closes with the `}` that brings it back to balance, which no
      earlier `}` inside it does. */
  predicate TopLevelFragment(b: string, s: nat, e: nat)
    requires s < e <= |b|
  {
    Balance(b[..s]) == 0 && b[s] == '{' && b[e - 1] == '}' && Balance(b[s..e]) == 0 && PrefixesOpen(b, s, e - 1)
  }

  /** The scanner's state at `i`: the depth is the balance of the text read so far; a fragment is
      pending exactly while the depth is positive, and then it opened at depth zero and the depth
      is also the balance of the text read since its `{`. */
  predicate ScanState(b: string, i: nat, depth: int, start: Option<nat>)
    requires i <= |b|
  {
    depth == Balance(b[..i]) &&
    match start
    case None => depth <= 0
    case Some(s) =>
      depth > 0 && s < i && b[s] == '{' && Balance(b[..s]) == 0 && Balance(b[s..i]) == depth && PrefixesOpen(b, s, i)
  }

  lemma BalanceStep(s: string, c: char)
    ensures Balance(s + [c]) == Balance(s) + (if c == '{' then 1 else if c == '}' then -1 else 0)
  {
    assert (s + [c])[..|s|] == s;
  }

  predicate FragmentsFrom(b: string, r: seq<(nat, nat)>, lo: nat)
    requires Spans(r, |b|)
  {
    (forall k :: 0 <= k < |r| ==> TopLevelFragment(b, r[k].0, r[k].1)) &&
    (forall k :: 0 <= k < |r| ==> lo <= r[k].0) &&
    (forall k :: 0 <= k < |r| - 1 ==> r[k].1 <= r[k + 1].0)
  }

  /** One character of scanning keeps `ScanState`, and a `}` that brings the depth back to
      zero closes a top-level fragment. */
  lemma ScanStep(b: string, i: nat, depth: int, start: Option<nat>)
    requires i < |b| && ScanState(b, i, depth, start)
    ensures Closes(b[i], depth, start) ==> TopLevelFragment(b, start.value, i + 1) && ScanState(b, i + 1, 0, None)
    ensures !Closes(b[i], depth, start) ==>
      ScanState(b, i + 1, NextDepth(b[i], depth), NextStart(b[i], i, depth, start))
  {
    if start.Some? {
      ScanStepOpen(b, i, depth, start.value);
    } else {
      ScanStepIdle(b, i, depth);
    }
  }

  /** `ScanStep` while an entry is open. */
  lemma ScanStepOpen(b: string, i: nat, depth: int, s: nat)
    requires i < |b| && ScanState(b, i, depth, Some(s))
    ensures Closes(b[i], depth, Some(s)) ==> TopLevelFragment(b, s, i + 1) && ScanState(b, i + 1, 0, None)
    ensures !Closes(b[i], depth, Some(s)) ==> ScanState(b, i + 1, NextDepth(b[i], depth), Some(s))
  {
    var c := b[i];
    assert b[..i + 1] == b[..i] + [c];
    BalanceStep(b[..i], c);
    assert b[s..i + 1] == b[s..i] + [c];
    BalanceStep(b[s..i], c);
    assert PrefixesOpen(b, s, i);
    if !Closes(c, depth, Some(s)) {
      assert PrefixesOpen(b, s, i + 1);
    }
  }

  /** `ScanStep` while no entry is open. */
  lemma ScanStepIdle(b: string, i: nat, depth: int)
    requires i < |b| && ScanState(b, i, depth, None)
    ensures ScanState(b, i + 1, NextDepth(b[i], depth), NextStart(b[i], i, depth, None))
  {
    var c := b[i];
    assert b[..i + 1] == b[..i] + [c];
    BalanceStep(b[..i], c);
    if c == '{' && depth == 0 {
      assert b[i..i + 1] == [] + [c];
      BalanceStep([], c);
      assert PrefixesOpen(b, i, i + 1);
    }
  }

  lemma {:induction false} ScanFromFragments(b: string, i: nat, depth: int, start: Option<nat>)
    requires i <= |b| && ScanState(b, i, depth, start)
    decreases |b| - i
    ensures FragmentsFrom(b, ScanFrom(b, i, depth, start), if start.Some? then start.value else i)
  {
    if i < |b| {
      ScanStep(b, i, depth, start);
      ScanFromStep(b, i, depth, start);
      var lo := if start.Some? then start.value else i;
      if Closes(b[i], depth, start) {
        ScanFromFragments(b, i + 1, 0, None);
        EmitFragment(b, start.value, i + 1, ScanFrom(b, i + 1, 0, None));
      } else {
        var d, st := NextDepth(b[i], depth), NextStart(b[i], i, depth, start);
        ScanFromFragments(b, i + 1, d, st);
        FragmentsFromWeaken(b, ScanFrom(b, i + 1, d, st), lo, if st.Some? then st.value else i + 1);
      }
    }
  }

  lemma FragmentsFromWeaken(b: string, r: seq<(nat, nat)>, lo: nat, hi: nat)
    requires lo <= hi
    requires Spans(r, |b|)
    requires FragmentsFrom(b, r, hi)
    ensures FragmentsFrom(b, r, lo)
  {
  }

  lemma EmitFragment(b: string, s: nat, e: nat, rest: seq<(nat, nat)>)
    requires s < e <= |b| && TopLevelFragment(b, s, e)
    requires Spans(rest, |b|)
    requires FragmentsFrom(b, rest, e)
    ensures var r := [(s, e)] + rest;
      Spans(r, |b|) && FragmentsFrom(b, r, s)
  {
    var r := [(s, e)] + rest;
    assert forall k :: 1 <= k < |r| ==> r[k] == rest[k - 1];
  }

  /** Once a top-level fragment is pending at `i`, the scan emits it next. */
  lemma {:induction false} ScanCloses(b: string, s: nat, e: nat, i: nat, depth: int)
    requires s < i < e <= |b| && TopLevelFragment(b, s, e) && depth == Balance(b[s..i])
    decreases e - i
    ensures ScanFrom(b, i, depth, Some(s)) != [] && ScanFrom(b, i, depth, Some(s))[0] == (s, e)
  {
    var c := b[i];
    assert b[s..i + 1] == b[s..i] + [c];
    BalanceStep(b[s..i], c);
    ScanFromStep(b, i, depth, Some(s));
    if i < e - 1 {
      assert Balance(b[s..i + 1]) > 0;
      assert depth > 0;
      assert NextStart(c, i, depth, Some(s)) == Some(s);
      ScanCloses(b, s, e, i + 1, NextDepth(c, depth));
    }
  }

  /** A top-level fragment that starts at or after `i` is among the fragments scanned from `i`. */
  lemma {:induction false} ScanFinds(b: string, i: nat, depth: int, start: Option<nat>, s: nat, e: nat)
    requires i <= s < e <= |b| && TopLevelFragment(b, s, e) && ScanState(b, i, depth, start)
    decreases s - i
    ensures (s, e) in ScanFrom(b, i, depth, start)
  {
    ScanStep(b, i, depth, start);
    ScanFromStep(b, i, depth, start);
    if i == s {
      assert b[s..s + 1] == [] + [b[s]];
      BalanceStep([], b[s]);
      ScanCloses(b, s, e, s + 1, 1);
    } else if Closes(b[i], depth, start) {
      ScanFinds(b, i + 1, 0, None, s, e);
    } else {
      ScanFinds(b, i + 1, NextDepth(b[i], depth), NextStart(b[i], i, depth, start), s, e);
    }
  }

  /** The fragments `load_from_buffer` parses are exactly the top-level balanced `{...}` blocks,
      left to right without overlapping: nested braces never start a record, and every block
      that opens where the braces before it balance is parsed. */
  lemma FragmentsAreTopLevel(b: string)
    ensures FragmentsFrom(b, Fragments(b), 0)
    ensures forall s: nat, e: nat :: s < e <= |b| && TopLevelFragment(b, s, e) ==> (s, e) in Fragments(b)
  {
    assert b[..0] == [];
    ScanFromFragments(b, 0, 0, None);
    forall s: nat, e: nat | s < e <= |b| && TopLevelFragment(b, s, e) ensures (s, e) in Fragments(b) {
      ScanFinds(b, 0, 0, None, s, e);
    }
  }

  /** Two blocks side by side are two fragments; a closed block nested in one that never closes is none. */
  lemma FragmentsExamples()
    ensures Fragments("{a}{b}") == [(0, 3), (3, 6)]
    ensures Fragments("{{a}") == []
  {
  }

  /** The records `parse_entry` builds for the fragments, in order. */
  function EntryRecords(b: string, frags: seq<(nat, nat)>, limits: Limits): (r: seq<Record>)
    requires limits.Valid()
    requires Spans(frags, |b|)
    ensures |r| == |frags|
  {
    if frags == [] then []
    else
      var f := frags[|frags| - 1];
      EntryRecords(b, frags[..|frags| - 1], limits) + [EntryRecord(b[f.0..f.1], limits)]
  }

  lemma EntryRecordsSnoc(b: string, frags: seq<(nat, nat)>, f: (nat, nat), limits: Limits)
    requires limits.Valid() && f.0 < f.1 <= |b|
    requires Spans(frags, |b|)
    ensures EntryRecords(b, frags + [f], limits) == EntryRecords(b, frags, limits) + [EntryRecord(b[f.0..f.1], limits)]
  {
    assert (frags + [f])[..|frags|] == frags;
  }

  function AppendCapped(current: seq<Record>, more: seq<Record>, capacity: nat): (r: seq<Record>)
    requires |current| <= capacity
    ensures |r| <= capacity && current <= r
  {
    current + more[..Min(|more|, capacity - |current|)]
  }

  lemma AppendCappedStep(current: seq<Record>, more: seq<Record>, x: Record, capacity: nat)
    requires |current| <= capacity
    ensures var c := AppendCapped(current, more, capacity);
      AppendCapped(current, more + [x], capacity) == if |c| < capacity then c + [x] else c
  {
    var n := capacity - |current|;
    if |more| < n {
      assert (more + [x])[..|more| + 1] == more + [x];
    } else {
      assert (more + [x])[..n] == more[..n];
    }
  }

  lemma AppendCappedFull(current: seq<Record>, more: seq<Record>, i: nat, capacity: nat)
    requires |current| <= capacity && i <= |more|
    requires |AppendCapped(current, more[..i], capacity)| == capacity
    ensures AppendCapped(current, more, capacity) == AppendCapped(current, more[..i], capacity)
  {
    assert more[..i][..capacity - |current|] == more[..capacity - |current|];
  }

  /** What `bourne_storage_load` does with the file's contents: nothing for a missing or
      unreadable file or one of size 0 or over 100000 bytes. */
  predicate LoadReadable(file: Option<string>) {
    file.Some? && 0 < |file.value| <= 100000
  }

  // ---------------------------------------------------------------------------
  // Built-in records

  /** The four records `bourne_storage_init` falls back on, in order. */
  const Fallback: seq<Record> := [
    Record(AriannaTitle, AriannaSummary, AriannaRaw), Record(FelixTitle, FelixSummary, FelixRaw),
    Record(SolsticeTitle, SolsticeSummary, SolsticeRaw), Record(HarborTitle, HarborSummary, HarborRaw)
  ]

  /** A built-in record as `strncpy` copies it into the record's arrays. */
  function Clip(r: Record, limits: Limits): Record
    requires limits.Valid()
  {
    Record(Truncate(r.title, limits.titleSize - 1), Truncate(r.summary, limits.summarySize - 1),
           Truncate(r.raw, limits.rawSize - 1))
  }

  /** Every record of `rs`, clipped to the buffers. */
  function ClippedAll(rs: seq<Record>, limits: Limits): (r: seq<Record>)
    requires limits.Valid()
    ensures |r| == |rs|
    ensures forall k :: 0 <= k < |rs| ==> r[k] == Clip(rs[k], limits)
  {
    seq(|rs|, k requires 0 <= k < |rs| => Clip(rs[k], limits))
  }

  function ClippedFallback(limits: Limits): (r: seq<Record>)
    requires limits.Valid()
    ensures |r| == |Fallback| == 4
    ensures forall k :: 0 <= k < 4 ==> r[k] == Clip(Fallback[k], limits)
  {
    ClippedAll(Fallback, limits)
  }

  /** The table `bourne_storage_init` produces from the sample file's contents. */
  function InitialRecords(file: Option<string>, limits: Limits): (r: seq<Record>)
    requires limits.Valid()
    ensures 0 < |r| <= limits.capacity
  {
    if LoadReadable(file) && |Fragments(UpToNul(file.value))| > 0 then
      var b := UpToNul(file.value);
      AppendCapped([], EntryRecords(b, Fragments(b), limits), limits.capacity)
    else AppendCapped([], ClippedFallback(limits), limits.capacity)
  }

  /** After initialisation the table is never empty and within capacity; without a usable
      sample file it holds the built-in records, all four when they fit. */
  lemma InitialRecordsShape(file: Option<string>, limits: Limits)
    requires limits.Valid()
    ensures 0 < |InitialRecords(file, limits)| <= limits.capacity
    ensures !LoadReadable(file) ==>
      InitialRecords(file, limits) == ClippedFallback(limits)[..Min(4, limits.capacity)]
    ensures !LoadReadable(file) && limits.capacity >= 4 ==> InitialRecords(file, limits) == ClippedFallback(limits)
  {
  }

  // ---------------------------------------------------------------------------
  // Search

  /** The needle matches `h` at position `i`, comparing with ASCII case folding. */
  predicate MatchesAt(h: string, n: string, i: int) {
    0 <= i && i + |n| <= |h| && forall k :: 0 <= k < |n| ==> LowerChar(h[i + k]) == LowerChar(n[k])
  }

  /** `contains_case_insensitive`: a non-empty needle occurs in the haystack, ignoring case. */
  predicate ContainsIgnoreCase(h: string, n: string)
    ensures ContainsIgnoreCase(h, n) ==> 0 < |n| <= |h|
  {
    n != [] && exists i :: 0 <= i < |h| && MatchesAt(h, n, i)
  }

  method ContainsCaseInsensitive(haystack: string, needle: string) returns (found: bool)
    ensures found == ContainsIgnoreCase(haystack, needle)
  {
    if needle == [] {
      return false;
    }
    var h := 0;
    while h < |haystack|
      invariant 0 <= h <= |haystack|
      invariant forall j :: 0 <= j < h ==> !MatchesAt(haystack, needle, j)
    {
      var hi, ni := h, 0;
      while hi < |haystack| && ni < |needle| && LowerChar(haystack[hi]) == LowerChar(needle[ni])
        invariant h <= hi <= |haystack| && 0 <= ni <= |needle| && hi == h + ni
        invariant forall k :: 0 <= k < ni ==> LowerChar(haystack[h + k]) == LowerChar(needle[k])
      {
        hi, ni := hi + 1, ni + 1;
      }
      if ni == |needle| {
        assert MatchesAt(haystack, needle, h);
        return true;
      }
      h := h + 1;
    }
    return false;
  }

  predicate RecordMatches(r: Record, query: string) {
    ContainsIgnoreCase(r.title, query) || ContainsIgnoreCase(r.summary, query) || ContainsIgnoreCase(r.raw, query)
  }

  /** The test `bourne_storage_search` applies to each record: title, then summary, then raw text. */
  method MatchRecord(r: Record, query: string) returns (hit: bool)
    ensures hit == RecordMatches(r, query)
  {
    hit := ContainsCaseInsensitive(r.title, query);
    if !hit {
      hit := ContainsCaseInsensitive(r.summary, query);
    }
    if !hit {
      hit := ContainsCaseInsensitive(r.raw, query);
    }
  }

  /** The records matching the query, in insertion order. */
  function Matching(rs: seq<Record>, query: string): (r: seq<Record>)
    ensures |r| <= |rs|
  {
    if rs == [] then []
    else Matching(rs[..|rs| - 1], query) + (if RecordMatches(rs[|rs| - 1], query) then [rs[|rs| - 1]] else [])
  }

  /** Only matching records of the table are kept. */
  lemma {:induction false} MatchingSound(rs: seq<Record>, query: string, x: Record)
    requires x in Matching(rs, query)
    ensures x in rs && RecordMatches(x, query)
  {
    var last := rs[|rs| - 1];
    var front := rs[..|rs| - 1];
    if x in Matching(front, query) {
      MatchingSound(front, query, x);
      assert x in front;
    } else {
      assert x == last;
    }
  }

  /** A record of the table is kept iff it matches. */
  lemma {:induction false} MatchingComplete(rs: seq<Record>, query: string, x: Record)
    requires x in rs
    ensures x in Matching(rs, query) <==> RecordMatches(x, query)
  {
    var last := rs[|rs| - 1];
    var front := rs[..|rs| - 1];
    if x in Matching(rs, query) {
      MatchingSound(rs, query, x);
    } else if x != last {
      assert x in front;
      MatchingComplete(front, query, x);
    }
  }

  const Separator := " \U{2014} "

  /** One result line, as formatted into a 512-byte line buffer. */
  function FormatLine(r: Record): string {
    Truncate(r.title + Separator + r.summary + "\n", 511)
  }

  function Lines(rs: seq<Record>): string {
    if rs == [] then [] else Lines(rs[..|rs| - 1]) + FormatLine(rs[|rs| - 1])
  }

  /** The text `bourne_storage_search` leaves in a buffer of `bufferLen` bytes
      (`None`: no buffer, nothing written). */
  function SearchText(rs: seq<Record>, query: string, bufferLen: nat): (r: Option<string>)
    ensures r.None? <==> bufferLen == 0
    ensures r.Some? ==> |r.value| < bufferLen
  {
    if bufferLen == 0 then None
    else if query == [] then Some(Truncate("No query provided\n", bufferLen - 1))
    else if Matching(rs, query) == [] then Some(Truncate("No matches found for '" + query + "'\n", bufferLen - 1))
    else Some(Truncate(Lines(Matching(rs, query)), bufferLen - 1))
  }

  function MatchCount(rs: seq<Record>, query: string, bufferLen: nat): (r: nat)
    ensures r <= |rs|
    ensures r > 0 ==> bufferLen > 0 && query != []
  {
    if bufferLen == 0 || query == [] then 0 else |Matching(rs, query)|
  }

  /** Storing a record and then searching for any non-empty part of its title finds it, and
      its result line comes last. */
  lemma SearchFindsAppended(rs: seq<Record>, r: Record, query: string, bufferLen: nat)
    requires bufferLen > 0 && query != []
    requires exists i :: 0 <= i < |r.title| && MatchesAt(r.title, query, i)
    ensures MatchCount(rs + [r], query, bufferLen) == MatchCount(rs, query, bufferLen) + 1 >= 1
    ensures Matching(rs + [r], query) == Matching(rs, query) + [r]
    ensures Lines(Matching(rs + [r], query)) == Lines(Matching(rs, query)) + FormatLine(r)
  {
    assert (rs + [r])[..|rs|] == rs;
    var m := Matching(rs, query) + [r];
    assert m[..|m| - 1] == Matching(rs, query);
  }

  lemma MatchingStep(rs: seq<Record>, r: Record, query: string)
    ensures Matching(rs + [r], query) == Matching(rs, query) + if RecordMatches(r, query) then [r] else []
  {
    assert (rs + [r])[..|rs|] == rs;
  }

  lemma LinesStep(m: seq<Record>, r: Record)
    ensures Lines(m + [r]) == Lines(m) + FormatLine(r)
  {
    assert (m + [r])[..|m|] == m;
  }

  /** One record of the search loop: a match appends its line with `strncat` into the room left. */
  lemma SearchLoopStep(rs: seq<Record>, i: nat, query: string, n: nat)
    requires i < |rs|
    ensures var m := Matching(rs[..i], query);
      var b := Truncate(Lines(m), n);
      if RecordMatches(rs[i], query) then
        Matching(rs[..i + 1], query) == m + [rs[i]] &&
        Strncat(b, FormatLine(rs[i]), n - |b|) == Truncate(Lines(m + [rs[i]]), n)
      else Matching(rs[..i + 1], query) == m
  {
    TakeSnoc(rs, i);
    MatchingStep(rs[..i], rs[i], query);
    if RecordMatches(rs[i], query) {
      AppendLine(Matching(rs[..i], query), rs[i], n);
    }
  }

  /** Appending one result line with `strncat` to the truncated text of the earlier lines. */
  lemma AppendLine(m: seq<Record>, r: Record, n: nat)
    ensures var b := Truncate(Lines(m), n);
      Strncat(b, FormatLine(r), n - |b|) == Truncate(Lines(m + [r]), n)
  {
    LinesStep(m, r);
    StrncatTruncate(Lines(m), FormatLine(r), n);
  }

  /** Every non-empty string contains itself. */
  lemma ContainsSelf(t: string)
    requires t != []
    ensures MatchesAt(t, t, 0)
  {
  }

  /** The three outcomes of a search: an empty query, no match, and the matching records' lines. */
  lemma SearchOutcomes(rs: seq<Record>, query: string, bufferLen: nat)
    requires bufferLen > 0
    ensures query == [] ==>
      MatchCount(rs, query, bufferLen) == 0 && SearchText(rs, query, bufferLen) == Some(Truncate("No query provided\n", bufferLen - 1))
    ensures query != [] && (forall x :: x in rs ==> !RecordMatches(x, query)) ==>
      MatchCount(rs, query, bufferLen) == 0 && SearchText(rs, query, bufferLen) == Some(Truncate("No matches found for '" + query + "'\n", bufferLen - 1))
    ensures query != [] && (exists x :: x in rs && RecordMatches(x, query)) ==>
      MatchCount(rs, query, bufferLen) > 0 && SearchText(rs, query, bufferLen) == Some(Truncate(Lines(Matching(rs, query)), bufferLen - 1))
  {
    if query != [] {
      var ms := Matching(rs, query);
      if ms != [] {
        MatchingSound(rs, query, ms[0]);
        assert ms[0] in rs && RecordMatches(ms[0], query);
      }
      if x :| x in rs && RecordMatches(x, query) {
        MatchingComplete(rs, query, x);
        assert x in ms;
      }
    }
  }

  /** A matching first record leads the matches. */
  lemma {:induction false} MatchingFirst(rs: seq<Record>, query: string)
    requires rs != [] && RecordMatches(rs[0], query)
    ensures Matching(rs, query) != [] && Matching(rs, query)[0] == rs[0]
  {
    if |rs| > 1 {
      var front := rs[..|rs| - 1];
      assert front[0] == rs[0];
      MatchingFirst(front, query);
    }
  }

  /** The result text starts with the first record's line. */
  lemma {:induction false} LinesFirst(ms: seq<Record>)
    requires ms != []
    ensures FormatLine(ms[0]) <= Lines(ms)
  {
    if |ms| > 1 {
      var front := ms[..|ms| - 1];
      assert front[0] == ms[0];
      LinesFirst(front);
    }
  }

  /** A word that starts the first record's summary shows in the result text when the buffer
      reaches past it. */
  lemma LeadingSummaryShows(ms: seq<Record>, word: string, bufferLen: nat)
    requires ms != [] && word <= ms[0].summary
    requires |ms[0].title| + |Separator| + |word| < bufferLen && |ms[0].title| + |Separator| + |word| <= 511
    ensures OccursAt(Truncate(Lines(ms), bufferLen - 1), word, |ms[0].title| + |Separator|)
  {
    LinesFirst(ms);
    LineShowsSummary(ms[0], word);
    var p := |ms[0].title| + |Separator|;
    PrefixSlice(FormatLine(ms[0]), Lines(ms), p, p + |word|);
    PrefixSlice(Truncate(Lines(ms), bufferLen - 1), Lines(ms), p, p + |word|);
  }

  /** A word that starts a record's summary sits right after its title and the separator in its
      result line. */
  lemma LineShowsSummary(r: Record, word: string)
    requires word <= r.summary && |r.title| + |Separator| + |word| <= 511
    ensures |FormatLine(r)| >= |r.title| + |Separator| + |word|
    ensures FormatLine(r)[|r.title| + |Separator|..|r.title| + |Separator| + |word|] == word
  {
    var p := |r.title| + |Separator|;
    var head := r.title + Separator;
    var tail := r.summary + "\n";
    var line := head + r.summary + "\n";
    assert line == head + tail;
    PrefixSlice(word, tail, 0, |word|);
    assert line[p..p + |word|] == tail[..|word|];
    PrefixSlice(FormatLine(r), line, p, p + |word|);
  }

  /** A prefix agrees with the whole on every slice it covers. */
  lemma PrefixSlice(a: string, b: string, lo: nat, hi: nat)
    requires a <= b && lo <= hi <= |a|
    ensures b[lo..hi] == a[lo..hi]
  {
    assert forall k :: lo <= k < hi ==> b[k] == a[k];
  }

  /** Without a usable sample file, searching the initial table for "Urban" finds the first
      built-in record through its summary, and a 256-byte result buffer shows the word. */
  lemma InitialSearchFindsUrban(file: Option<string>, limits: Limits, bufferLen: nat)
    requires limits.Valid() && limits.summarySize > 5 && !LoadReadable(file) && bufferLen > 0
    ensures MatchCount(InitialRecords(file, limits), "Urban", bufferLen) > 0
    ensures bufferLen >= 256 ==>
      exists i :: OccursAt(SearchText(InitialRecords(file, limits), "Urban", bufferLen).value, "Urban", i)
  {
    InitialRecordsShape(file, limits);
    AriannaOpens();
    var rs := InitialRecords(file, limits);
    var first := Clip(Fallback[0], limits);
    assert rs[0] == first;
    assert first.summary[..5] == AriannaSummary[..5] == "Urban";
    assert MatchesAt(first.summary, "Urban", 0);
    assert RecordMatches(first, "Urban");
    SearchOutcomes(rs, "Urban", bufferLen);
    if bufferLen >= 256 {
      MatchingFirst(rs, "Urban");
      LeadingSummaryShows(Matching(rs, "Urban"), "Urban", bufferLen);
    }
  }

  /** A needle holding a character that the haystack lacks in either case never matches. */
  lemma AbsentCharNoMatch(h: string, n: string, j: nat)
    requires j < |n| && !('A' <= n[j] <= 'Z') && n[j] !in h
    requires 'a' <= n[j] <= 'z' ==> (n[j] as int - 32) as char !in h
    ensures !ContainsIgnoreCase(h, n)
  {
    forall p | 0 <= p < |h| ensures LowerChar(h[p]) != LowerChar(n[j]) {
      assert h[p] in h;
    }
  }

  /** A clipped text lacks every character the full text lacks, so the needle misses it too. */
  lemma ClippedNoMatch(h: string, m: nat, n: string, j: nat)
    requires j < |n| && !('A' <= n[j] <= 'Z') && n[j] !in h
    requires 'a' <= n[j] <= 'z' ==> (n[j] as int - 32) as char !in h
    ensures !ContainsIgnoreCase(Truncate(h, m), n)
  {
    var t := Truncate(h, m);
    forall k | 0 <= k < |t| ensures t[k] == h[k] {
    }
    AbsentCharNoMatch(t, n, j);
  }

  const MissingToken := "nonexistent-token"

  /** Which characters of the missing token each built-in text lacks. */
  /** A record whose texts each lack the missing token's `-`, or its `k` in both cases, does not
      match it, however it is clipped. */
  lemma ClipMisses(r: Record, limits: Limits)
    requires limits.Valid()
    requires '-' !in r.title && '-' !in r.raw
    requires '-' !in r.summary || ('k' !in r.summary && 'K' !in r.summary)
    ensures !RecordMatches(Clip(r, limits), MissingToken)
  {
    assert MissingToken[14] == 'k' && MissingToken[11] == '-';
    ClippedNoMatch(r.title, limits.titleSize - 1, MissingToken, 11);
    ClippedNoMatch(r.raw, limits.rawSize - 1, MissingToken, 11);
    if '-' !in r.summary {
      ClippedNoMatch(r.summary, limits.summarySize - 1, MissingToken, 11);
    } else {
      ClippedNoMatch(r.summary, limits.summarySize - 1, MissingToken, 14);
    }
  }

  /** No built-in record, however clipped, mentions the missing token `nonexistent-token`. */
  lemma FallbackMisses(k: nat, limits: Limits)
    requires k < 4 && limits.Valid()
    ensures !RecordMatches(Clip(Fallback[k], limits), MissingToken)
  {
    TitlesLackDash();
    RawsLackDash();
    PersonSummariesLackDash();
    HarborSummaryLacksDash();
    SolsticeSummaryLacksK();
    ClipMisses(Fallback[k], limits);
  }

  /** Without a usable sample file, searching the initial table for a token no built-in record
      mentions counts nothing and reports that nothing matched. */
  lemma InitialSearchMissesToken(file: Option<string>, limits: Limits, bufferLen: nat)
    requires limits.Valid() && !LoadReadable(file) && bufferLen > 0
    ensures MatchCount(InitialRecords(file, limits), MissingToken, bufferLen) == 0
    ensures SearchText(InitialRecords(file, limits), MissingToken, bufferLen)
         == Some(Truncate("No matches found for '" + MissingToken + "'\n", bufferLen - 1))
  {
    InitialRecordsShape(file, limits);
    var rs := InitialRecords(file, limits);
    var all := ClippedFallback(limits);
    forall x | x in rs ensures !RecordMatches(x, MissingToken) {
      var k :| 0 <= k < |rs| && rs[k] == x;
      assert x == all[k];
      FallbackMisses(k, limits);
    }
    SearchOutcomes(rs, MissingToken, bufferLen);
  }

  // ---------------------------------------------------------------------------
  // The table

  /** `g_records` and `g_record_count`. */
  class RecordStore {
    const limits: Limits
    const records: array<Record>
    var count: nat

    ghost predicate Valid()
      reads this
    {
      limits.Valid() && records.Length == limits.capacity && count <= limits.capacity
    }

    /** The stored records, in insertion order. */
    function Contents(): seq<Record>
      reads this, records
      requires Valid()
    {
      records[..count]
    }

    /** The table as static storage starts: zeroed and empty. */
    constructor (limits: Limits)
      requires limits.Valid()
      ensures Valid() && this.limits == limits && Contents() == []
    {
      this.limits := limits;
      records := new Record[limits.capacity](_ => EmptyRecord);
      count := 0;
    }

    /** `bourne_storage_record_count`. */
    function RecordCount(): (n: nat)
      reads this, records
      requires Valid()
      ensures n == |Contents()| <= limits.capacity
    {
      count
    }

    /** `bourne_storage_reset`: every slot cleared and the count zeroed. */
    method Reset()
      requires Valid()
      modifies this, records
      ensures Valid() && Contents() == []
      ensures forall i :: 0 <= i < records.Length ==> records[i] == EmptyRecord
    {
      forall i | 0 <= i < records.Length {
        records[i] := EmptyRecord;
      }
      count := 0;
    }

    /** `g_records[g_record_count++] = record`. */
    method Append(r: Record)
      requires Valid() && count < limits.capacity
      modifies this, records
      ensures Valid() && Contents() == old(Contents()) + [r]
    {
      records[count] := r;
      count := count + 1;
      assert records[..count] == old(records[..count]) + [r];
    }

    /** `parse_entry` on `text[start..end]`: refuses an empty range or a full table. */
    method ParseEntry(text: string, start: nat, end: nat) returns (ok: bool)
      requires Valid() && start <= |text| && end <= |text|
      modifies this, records
      ensures Valid()
      ensures ok == (start < end && old(count) < limits.capacity)
      ensures Contents() == if ok then old(Contents()) + [EntryRecord(text[start..end], limits)] else old(Contents())
    {
      if start >= end || count >= limits.capacity {
        return false;
      }
      var entry := text[start..end];
      var title := ExtractField(entry, "title", limits.titleSize).GetOr("");
      var summary := ExtractField(entry, "summary", limits.summarySize).GetOr("");
      var qs, qe := TrimQuotes(entry);
      Append(Record(title, summary, Truncate(entry[qs..qe], limits.rawSize - 1)));
      ok := true;
    }

    /** `load_builtin_records`: appends the built-in records while there is room. */
    method LoadBuiltinRecords()
      requires Valid()
      modifies this, records
      ensures Valid()
      ensures Contents() == AppendCapped(old(Contents()), ClippedFallback(limits), limits.capacity)
    {
      AppendClipped(Fallback);
    }

    /** The loop of `load_builtin_records` over a table of records: each is copied, clipped to the
        buffers, while there is room. */
    method AppendClipped(source: seq<Record>)
      requires Valid()
      modifies this, records
      ensures Valid()
      ensures Contents() == AppendCapped(old(Contents()), ClippedAll(source, limits), limits.capacity)
    {
      ghost var before := Contents();
      ghost var clipped := ClippedAll(source, limits);
      var i := 0;
      while i < |source| && count < limits.capacity
        invariant 0 <= i <= |source| && Valid()
        invariant Contents() == AppendCapped(before, clipped[..i], limits.capacity)
      {
        var record := Clip(source[i], limits);
        assert clipped[..i + 1] == clipped[..i] + [record];
        AppendCappedStep(before, clipped[..i], record, limits.capacity);
        Append(record);
        i := i + 1;
      }
      if i < |source| {
        AppendCappedFull(before, clipped, i, limits.capacity);
      } else {
        assert clipped[..i] == clipped;
      }
    }

    /** One character of the `load_from_buffer` loop: the depth and pending start move on, and a
        `}` that closes a top-level fragment hands it to `parse_entry`. */
    method ScanChar(buffer: string, cursor: nat, depth: int, entryStart: Option<nat>,
                    ghost before: seq<Record>, ghost emitted: seq<(nat, nat)>)
      returns (depth': int, entryStart': Option<nat>, closed: bool, ghost emitted': seq<(nat, nat)>)
      requires Valid() && cursor < |buffer| && (entryStart.Some? ==> entryStart.value < cursor)
      requires Spans(emitted, |buffer|) && |before| <= limits.capacity
      requires Contents() == AppendCapped(before, EntryRecords(buffer, emitted, limits), limits.capacity)
      modifies this, records
      ensures Valid() && (entryStart'.Some? ==> entryStart'.value < cursor + 1) && Spans(emitted', |buffer|)
      ensures emitted' + ScanFrom(buffer, cursor + 1, depth', entryStart') == emitted + ScanFrom(buffer, cursor, depth, entryStart)
      ensures closed ==> |emitted'| == |emitted| + 1
      ensures !closed ==> emitted' == emitted
      ensures Contents() == AppendCapped(before, EntryRecords(buffer, emitted', limits), limits.capacity)
    {
      ScanFromStep(buffer, cursor, depth, entryStart);
      depth', entryStart', closed, emitted' := depth, entryStart, false, emitted;
      if buffer[cursor] == '{' {
        if depth == 0 {
          entryStart' := Some(cursor);
        }
        depth' := depth + 1;
      } else if buffer[cursor] == '}' {
        depth' := depth - 1;
        if depth' == 0 && entryStart.Some? {
          var f: (nat, nat) := (entryStart.value, cursor + 1);
          SpansSnoc(emitted, f, |buffer|);
          ConcatAssoc(emitted, [f], ScanFrom(buffer, cursor + 1, 0, None));
          EntryRecordsSnoc(buffer, emitted, f, limits);
          AppendCappedStep(before, EntryRecords(buffer, emitted, limits), EntryRecord(buffer[f.0..f.1], limits), limits.capacity);
          var _ := ParseEntry(buffer, f.0, f.1);
          emitted' := emitted + [f];
          closed := true;
          entryStart' := None;
        }
      }
      if !closed {
        assert !Closes(buffer[cursor], depth, entryStart);
        assert depth' == NextDepth(buffer[cursor], depth);
        assert entryStart' == NextStart(buffer[cursor], cursor, depth, entryStart);
      }
    }

    /** `load_from_buffer`: one `parse_entry` per top-level `{...}` fragment, left to right;
      reports whether any fragment closed, even if the table was already full. */
    method LoadFromBuffer(buffer: string) returns (loaded: bool)
      requires Valid()
      modifies this, records
      ensures Valid()
      ensures loaded == (|Fragments(buffer)| > 0)
      ensures Contents() == AppendCapped(old(Contents()), EntryRecords(buffer, Fragments(buffer), limits), limits.capacity)
    {
      ghost var before := Contents();
      ghost var emitted: seq<(nat, nat)> := [];
      var depth: int := 0;
      var entryStart: Option<nat> := None;
      loaded := false;
      var cursor := 0;
      while cursor < |buffer|
        invariant 0 <= cursor <= |buffer| && Valid()
        invariant entryStart.Some? ==> entryStart.value < cursor
        invariant Spans(emitted, |buffer|) && |before| <= limits.capacity
        invariant emitted + ScanFrom(buffer, cursor, depth, entryStart) == Fragments(buffer)
        invariant loaded == (|emitted| > 0)
        invariant Contents() == AppendCapped(before, EntryRecords(buffer, emitted, limits), limits.capacity)
      {
        var closed;
        depth, entryStart, closed, emitted := ScanChar(buffer, cursor, depth, entryStart, before, emitted);
        loaded := loaded || closed;
        cursor := cursor + 1;
      }
      assert ScanFrom(buffer, cursor, depth, entryStart) == [];
      assert emitted + [] == emitted;
    }

    /** `bourne_storage_load` given what reading the file produced (`None`: it could not be opened). */
    method Load(file: Option<string>) returns (loaded: bool)
      requires Valid()
      modifies this, records
      ensures Valid()
      ensures loaded == (LoadReadable(file) && |Fragments(UpToNul(file.value))| > 0)
      ensures !LoadReadable(file) ==> Contents() == old(Contents())
      ensures LoadReadable(file) ==>
        var b := UpToNul(file.value);
        Contents() == AppendCapped(old(Contents()), EntryRecords(b, Fragments(b), limits), limits.capacity)
    {
      if file.None? || |file.value| == 0 || |file.value| > 100000 {
        return false;
      }
      loaded := LoadFromBuffer(UpToNul(file.value));
    }

    /** `bourne_storage_init`: reset, load the sample file, fall back to the built-in records. */
    method Init(file: Option<string>) returns (ok: bool)
      requires Valid()
      modifies this, records
      ensures Valid()
      ensures Contents() == InitialRecords(file, limits)
      ensures ok && |Contents()| > 0
    {
      Reset();
      var loaded := Load(file);
      if !loaded {
        LoadBuiltinRecords();
      }
      InitialRecordsShape(file, limits);
      ok := count > 0;
    }

    /** `bourne_storage_shutdown`. */
    method Shutdown()
      requires Valid()
      modifies this, records
      ensures Valid() && Contents() == []
    {
      Reset();
    }

    /** `bourne_storage_store`, with a status buffer of `messageLen` bytes. */
    method Store(payload: string, messageLen: nat) returns (ok: bool, message: Option<string>)
      requires Valid()
      modifies this, records
      ensures Valid()
      ensures ok == StoreAccepts(payload, old(count), limits)
      ensures message == StoreMessage(payload, old(count), limits, messageLen)
      ensures Contents() == if ok then old(Contents()) + [StoredRecord(payload, old(count), limits)] else old(Contents())
    {
      if payload == [] {
        return false, SetMessage(NoPayloadFormat, 0, messageLen);
      }
      if count >= limits.capacity {
        return false, SetMessage(FullFormat, count, messageLen);
      }
      ghost var before := count;
      var record := BuildStoredRecord(payload, count, limits);
      Append(record);
      assert count == before + 1;
      ok := true;
      message := SetMessage(StoredFormat, count, messageLen);
    }

    /** `bourne_storage_search`, with a result buffer of `bufferLen` bytes. */
    method Search(query: string, bufferLen: nat) returns (matches: nat, text: Option<string>)
      requires Valid()
      ensures matches == MatchCount(Contents(), query, bufferLen)
      ensures text == SearchText(Contents(), query, bufferLen)
    {
      if bufferLen == 0 {
        return 0, None;
      }
      if query == [] {
        return 0, Some(Truncate("No query provided\n", bufferLen - 1));
      }
      var buffer: string := [];
      matches := 0;
      ghost var rs := Contents();
      ghost var m: seq<Record> := [];
      var i := 0;
      while i < count
        invariant 0 <= i <= count
        invariant m == Matching(rs[..i], query)
        invariant matches == |m| && buffer == Truncate(Lines(m), bufferLen - 1)
      {
        var r := records[i];
        assert r == rs[i];
        SearchLoopStep(rs, i, query, bufferLen - 1);
        var hit := MatchRecord(r, query);
        if hit {
          matches := matches + 1;
          var line := FormatLine(r);
          buffer := Strncat(buffer, line, bufferLen - 1 - |buffer|);
          m := m + [r];
        }
        i := i + 1;
      }
      assert rs[..count] == rs;
      if matches == 0 {
        text := Some(Truncate("No matches found for '" + query + "'\n", bufferLen - 1));
      } else {
        text := Some(buffer);
      }
    }
  }

  /** The table never exceeds its capacity, whatever is stored: a store at capacity is refused. */
  lemma StoreWithinCapacity(rs: seq<Record>, payload: string, limits: Limits)
    requires limits.Valid() && |rs| <= limits.capacity
    ensures StoreAccepts(payload, |rs|, limits) ==> |rs + [StoredRecord(payload, |rs|, limits)]| <= limits.capacity
    ensures |rs| == limits.capacity ==> !StoreAccepts(payload, |rs|, limits)
  {
  }

  /** The payload of the store test. */
  const NoteTitle := "\"title\":\"User note\""
  const NoteRest := ",\"summary\":\"quick link between records\",\"tags\":[\"user\"]}"
  const NotePayload := "{" + NoteTitle + NoteRest

  /** The store test: the note is accepted, titled by its `"title"` field, and a search for that
      title afterwards counts it. */
  lemma StoredNoteIsFound(rs: seq<Record>, limits: Limits, bufferLen: nat)
    requires limits.Valid() && |rs| < limits.capacity && limits.titleSize > 9 && limits.rawSize > |NotePayload|
    requires bufferLen > 0
    ensures StoreAccepts(NotePayload, |rs|, limits)
    ensures StoredRecord(NotePayload, |rs|, limits).title == "User note"
    ensures MatchCount(rs + [StoredRecord(NotePayload, |rs|, limits)], "User note", bufferLen) ==
            MatchCount(rs, "User note", bufferLen) + 1
  {
    assert Member("title", "", "User note") == NoteTitle;
    assert Truncate(NotePayload, limits.rawSize - 1) == NotePayload;
    assert NotePayload[|NotePayload| - 1] == '}';
    StripLineBreaksNone(NotePayload);
    assert Sanitized(NotePayload, limits.rawSize) == NotePayload;
    assert KeyPattern("title") == "\"title\"";
    assert !OccursAt(NotePayload, KeyPattern("title"), 0) by { assert NotePayload[0] == '{'; }
    ExtractFieldOfMember("{", "title", "", "User note", NoteRest, limits.titleSize);
    var r := StoredRecord(NotePayload, |rs|, limits);
    assert r.title == "User note";
    ContainsSelf("User note");
    SearchFindsAppended(rs, r, "User note", bufferLen);
  }
}
