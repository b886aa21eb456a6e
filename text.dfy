/** Character and C-string helpers shared by the back-end and the front-end.
    A C string is modelled as the `seq<char>` of its characters before the
    terminating NUL; writing a NUL into a buffer "in place" is modelled as
    keeping a prefix of the sequence. Case folding is ASCII `tolower` only. */
module Text {

  datatype Option<+T> = None | Some(value: T) {
    function GetOr(default: T): T {
      match this
      case Some(v) => v
      case None => default
    }
  }

  /** `isspace` in the C locale: space, tab, newline, vertical tab, form feed, carriage return. */
  predicate IsSpace(c: char) {
    c == ' ' || c == '\t' || c == '\n' || c == '\U{000B}' || c == '\U{000C}' || c == '\r'
  }

  predicate IsLineBreak(c: char) {
    c == '\n' || c == '\r'
  }

  /** ASCII `tolower`. */
  function LowerChar(c: char): (r: char)
    ensures 'A' <= c <= 'Z' ==> r as int == c as int + 32
    ensures !('A' <= c <= 'Z') ==> r == c
  {
    if 'A' <= c <= 'Z' then (c as int + 32) as char else c
  }

  function Lower(s: string): (r: string)
    ensures |r| == |s|
    ensures forall i :: 0 <= i < |s| ==> r[i] == LowerChar(s[i])
  {
    seq(|s|, i requires 0 <= i < |s| => LowerChar(s[i]))
  }

  lemma LowerIdempotent(s: string)
    ensures Lower(Lower(s)) == Lower(s)
  {
  }

  /** `strcasecmp(a, b) == 0`. */
  predicate EqualsIgnoreCase(a: string, b: string) {
    Lower(a) == Lower(b)
  }

  /** The prefix of `s` of at most `n` characters: what `snprintf`/`strncpy` keep
      when writing `s` into a buffer of `n + 1` bytes. */
  function Truncate(s: string, n: nat): (r: string)
    ensures |r| == if |s| <= n then |s| else n
    ensures r <= s
  {
    if |s| <= n then s else s[..n]
  }

  /** `strncat(buffer, s, room)`: appends at most `room` characters of `s`. */
  function Strncat(buffer: string, s: string, room: nat): (r: string)
    ensures |r| <= |buffer| + room
  {
    buffer + Truncate(s, room)
  }

  /** Appending with `strncat` into the room left by a buffer of `n` characters holding a
      truncated `a` gives the truncation of `a + b`: a run of bounded appends is one bounded copy. */
  lemma StrncatTruncate(a: string, b: string, n: nat)
    ensures Strncat(Truncate(a, n), b, n - |Truncate(a, n)|) == Truncate(a + b, n)
  {
    if |a| >= n {
      assert (a + b)[..n] == a[..n];
    } else if |a + b| > n {
      assert (a + b)[..n] == a + b[..n - |a|];
    }
  }

  /** Finds a single character: `strchr(s + from, c)`. */
  function FindChar(s: string, c: char, from: nat): (r: Option<nat>)
    decreases |s| - from
    ensures r.Some? ==> from <= r.value < |s| && s[r.value] == c
    ensures r.Some? ==> forall k :: from <= k < r.value ==> s[k] != c
    ensures r.None? ==> forall k :: from <= k < |s| ==> s[k] != c
  {
    if from >= |s| then None
    else if s[from] == c then Some(from)
    else FindChar(s, c, from + 1)
  }

  /** The C string held by a byte buffer: everything before the first NUL. */
  function UpToNul(s: string): (r: string)
    ensures r <= s
    ensures '\0' !in r
    ensures |r| < |s| ==> s[|r|] == '\0'
  {
    if s == [] then []
    else if s[0] == '\0' then []
    else [s[0]] + UpToNul(s[1..])
  }

  /** A string without NUL is its own C string. */
  lemma {:induction false} UpToNulClean(s: string)
    requires '\0' !in s
    ensures UpToNul(s) == s
  {
    if s != [] {
      assert '\0' !in s[1..];
      UpToNulClean(s[1..]);
    }
  }

  predicate OccursAt(s: string, pattern: string, k: int) {
    0 <= k && k + |pattern| <= |s| && s[k..k + |pattern|] == pattern
  }

  /** `strstr(s + from, pattern)`: the first position at or after `from` where `pattern` occurs. */
  function FindFrom(s: string, pattern: string, from: nat): (r: Option<nat>)
    decreases |s| - from
    ensures r.Some? ==> from <= r.value && OccursAt(s, pattern, r.value)
    ensures r.Some? ==> forall k :: from <= k < r.value ==> !OccursAt(s, pattern, k)
    ensures r.None? ==> forall k :: from <= k ==> !OccursAt(s, pattern, k)
  {
    if from + |pattern| > |s| then None
    else if s[from..from + |pattern|] == pattern then Some(from)
    else FindFrom(s, pattern, from + 1)
  }

  /** Decimal digits of a character. */
  function Digit(d: nat): (c: char)
    requires d < 10
    ensures '0' <= c <= '9' && c as int - '0' as int == d
  {
    ('0' as int + d) as char
  }

  /** `%zu`: the decimal numeral of `n`, without leading zeros. */
  function NatToString(n: nat): (r: string)
    ensures |r| > 0
    ensures forall i :: 0 <= i < |r| ==> '0' <= r[i] <= '9'
    ensures n > 0 ==> r[0] != '0'
  {
    if n < 10 then [Digit(n)] else NatToString(n / 10) + [Digit(n % 10)]
  }

  /** The value of a string of decimal digits. */
  function DecimalValue(s: string): nat
    requires forall i :: 0 <= i < |s| ==> '0' <= s[i] <= '9'
  {
    if s == [] then 0 else 10 * DecimalValue(s[..|s| - 1]) + (s[|s| - 1] as int - '0' as int)
  }

  /** `%zu` is read back as the number it was given. */
  lemma {:induction false} NatToStringValue(n: nat)
    ensures DecimalValue(NatToString(n)) == n
  {
    if n >= 10 {
      var s := NatToString(n);
      assert s[..|s| - 1] == NatToString(n / 10);
      NatToStringValue(n / 10);
    }
  }

  /** Distinct counts are formatted differently. */
  lemma NatToStringInjective(m: nat, n: nat)
    requires NatToString(m) == NatToString(n)
    ensures m == n
  {
    NatToStringValue(m);
    NatToStringValue(n);
  }

  /** The text left by removing every trailing CR and LF. */
  function StripLineBreaks(s: string): (r: string)
    ensures r <= s
    ensures r == [] || !IsLineBreak(r[|r| - 1])
    ensures forall i :: |r| <= i < |s| ==> IsLineBreak(s[i])
  {
    if s != [] && IsLineBreak(s[|s| - 1]) then StripLineBreaks(s[..|s| - 1]) else s
  }

  /** A text that does not end in a line break is left as it is. */
  lemma StripLineBreaksNone(s: string)
    requires s == [] || !IsLineBreak(s[|s| - 1])
    ensures StripLineBreaks(s) == s
  {
  }

  /** `trim_newlines` (query.c) and `trim_newlines_local` (storage.c), which are the same code:
      the terminator is moved back over trailing CR/LF characters. */
  method TrimNewlines(text: string) returns (r: string)
    ensures r == StripLineBreaks(text)
  {
    var len := |text|;
    while len > 0 && IsLineBreak(text[len - 1])
      invariant 0 <= len <= |text|
      invariant StripLineBreaks(text[..len]) == StripLineBreaks(text)
    {
      assert text[..len][..len - 1] == text[..len - 1];
      len := len - 1;
    }
    r := text[..len];
  }

  /** The smaller of two integers. */
  function Min(a: int, b: int): int {
    if a <= b then a else b
  }

  /** The first index at or after `i` that does not hold a whitespace character. */
  function SpaceEnd(s: string, i: nat): (r: nat)
    requires i <= |s|
    decreases |s| - i
    ensures i <= r <= |s|
    ensures forall k :: i <= k < r ==> IsSpace(s[k])
    ensures r < |s| ==> !IsSpace(s[r])
  {
    if i < |s| && IsSpace(s[i]) then SpaceEnd(s, i + 1) else i
  }

  /** The index before which every character in `s[lo..hi]` satisfying `p` at the end has been dropped. */
  function RetreatWhile(s: string, lo: nat, hi: nat, p: char -> bool): (r: nat)
    requires lo <= hi <= |s|
    decreases hi
    ensures lo <= r <= hi
    ensures forall k :: r <= k < hi ==> p(s[k])
    ensures r > lo ==> !p(s[r - 1])
  {
    if hi > lo && p(s[hi - 1]) then RetreatWhile(s, lo, hi - 1, p) else hi
  }

  /** Extending a prefix by one element. */
  lemma TakeSnoc<T>(s: seq<T>, i: nat)
    requires i < |s|
    ensures s[..i + 1] == s[..i] + [s[i]]
  {
  }

  lemma ConcatAssoc<T>(a: seq<T>, b: seq<T>, c: seq<T>)
    ensures a + (b + c) == (a + b) + c
  {
  }
}
