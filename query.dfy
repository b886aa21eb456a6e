/** The line protocol's command codec (bourne/src/query.c): a request line is
    `<verb> [argument]`, the verb matched case-insensitively against PING,
    SEARCH, STORE and SHUTDOWN, the argument the rest of the line. */
module Query {
  import opened Text

  datatype CommandType = Invalid | Ping | Search | Store | Shutdown

  /** `BourneCommand`: the verb and the text held in its 512-byte argument buffer. */
  datatype Command = Command(kind: CommandType, argument: string)

  /** A command as `memset` leaves it. */
  const ZeroCommand := Command(Invalid, [])

  /** Sizes of the request buffer, the verb buffer and the argument buffer. */
  const LineSize := 1024
  const VerbSize := 32
  const ArgumentSize := 512

  /** The verb the protocol spells each command with (none for `Invalid`). */
  function Verb(kind: CommandType): string {
    match kind
    case Invalid => ""
    case Ping => "PING"
    case Search => "SEARCH"
    case Store => "STORE"
    case Shutdown => "SHUTDOWN"
  }

  /** `parse_type`: the command whose verb equals `token` ignoring ASCII case. */
  function ParseType(token: string): (t: CommandType)
    ensures t != Invalid ==> EqualsIgnoreCase(token, Verb(t))
  {
    if EqualsIgnoreCase(token, "PING") then Ping
    else if EqualsIgnoreCase(token, "SEARCH") then Search
    else if EqualsIgnoreCase(token, "STORE") then Store
    else if EqualsIgnoreCase(token, "SHUTDOWN") then Shutdown
    else Invalid
  }

  /** A token names a command exactly when it equals that command's verb ignoring case,
      and every verb is read back as its command. */
  lemma ParseTypeExact(token: string, kind: CommandType)
    requires kind != Invalid
    ensures ParseType(token) == kind <==> EqualsIgnoreCase(token, Verb(kind))
    ensures ParseType(Verb(kind)) == kind
  {
    if EqualsIgnoreCase(token, Verb(kind)) {
      // The four verbs have four different lengths, so a token matches at most one of them.
      assert |Lower(token)| == |Verb(kind)|;
    }
  }

  /** Only the case of a verb is ignored: lower-casing a token does not change its command. */
  lemma ParseTypeIgnoresCase(token: string)
    ensures ParseType(Lower(token)) == ParseType(token)
  {
    LowerIdempotent(token);
  }

  /** `skip_spaces`. */
  method SkipSpaces(text: string, from: nat) returns (cursor: nat)
    requires from <= |text|
    ensures cursor == SpaceEnd(text, from)
  {
    cursor := from;
    while cursor < |text| && IsSpace(text[cursor])
      invariant from <= cursor <= |text|
      invariant SpaceEnd(text, cursor) == SpaceEnd(text, from)
    {
      cursor := cursor + 1;
    }
  }

  /** Where the verb copy loop stops: at whitespace, at the end, or once `room` characters are copied. */
  function TokenEnd(s: string, i: nat, room: nat): (r: nat)
    requires i <= |s|
    decreases room
    ensures i <= r <= |s| && r - i <= room
    ensures forall k :: i <= k < r ==> !IsSpace(s[k])
    ensures r < |s| && r - i < room ==> IsSpace(s[r])
  {
    if i < |s| && !IsSpace(s[i]) && room > 0 then TokenEnd(s, i + 1, room - 1) else i
  }

  /** The request text `bourne_query_parse` works on: at most 1023 characters, trailing CR/LF removed. */
  function RequestLine(raw: string): (r: string)
    ensures |r| < LineSize
  {
    StripLineBreaks(Truncate(raw, LineSize - 1))
  }

  /** The command `bourne_query_parse` leaves in its output structure. */
  function Parsed(raw: string): (c: Command)
    ensures |c.argument| < ArgumentSize
  {
    var line := RequestLine(raw);
    var start := SpaceEnd(line, 0);
    if start == |line| then ZeroCommand
    else
      var verbEnd := TokenEnd(line, start, VerbSize - 1);
      var rest := SpaceEnd(line, verbEnd);
      Command(ParseType(line[start..verbEnd]), if rest < |line| then Truncate(line[rest..], ArgumentSize - 1) else [])
  }

  /** The verb copy loop of `bourne_query_parse`: characters up to whitespace or the end of
      the line, at most 31 of them. */
  method CopyVerb(buffer: string, start: nat) returns (verb: string, cursor: nat)
    requires start <= |buffer|
    ensures cursor == TokenEnd(buffer, start, VerbSize - 1)
    ensures verb == buffer[start..cursor]
  {
    cursor := start;
    verb := [];
    while cursor < |buffer| && !IsSpace(buffer[cursor]) && |verb| + 1 < VerbSize
      invariant start <= cursor <= |buffer| && |verb| == cursor - start < VerbSize
      invariant verb == buffer[start..cursor]
      invariant TokenEnd(buffer, cursor, VerbSize - 1 - |verb|) == TokenEnd(buffer, start, VerbSize - 1)
    {
      TakeSnoc(buffer[start..], cursor - start);
      assert buffer[start..][..cursor - start + 1] == buffer[start..cursor + 1];
      verb := verb + [buffer[cursor]];
      cursor := cursor + 1;
    }
  }

  /** `bourne_query_parse`: zeroes the command, copies and trims the line, copies the verb,
      then copies what follows the spaces after it. */
  method ParseCommand(raw: string) returns (ok: bool, command: Command)
    ensures command == Parsed(raw)
    ensures ok == (command.kind != Invalid)
  {
    command := ZeroCommand;
    var buffer := Truncate(raw, LineSize - 1);
    buffer := TrimNewlines(buffer);
    assert buffer == RequestLine(raw);
    var cursor := SkipSpaces(buffer, 0);
    if cursor == |buffer| {
      return false, command;
    }
    var verb;
    verb, cursor := CopyVerb(buffer, cursor);
    command := command.(kind := ParseType(verb));
    cursor := SkipSpaces(buffer, cursor);
    if cursor < |buffer| {
      command := command.(argument := Truncate(buffer[cursor..], ArgumentSize - 1));
    }
    ok := command.kind != Invalid;
  }

  /** `bourne_query_validate`: a known verb, and an argument for SEARCH and STORE. */
  predicate Validate(c: Command)
    ensures Validate(c) ==> c.kind != Invalid
    ensures c.kind == Ping || c.kind == Shutdown ==> Validate(c)
  {
    if c.kind == Invalid then false
    else if c.kind == Search || c.kind == Store then c.argument != []
    else true
  }

  /** The text a client sends for a command. */
  function Render(c: Command): string {
    if c.argument == [] then Verb(c.kind) else Verb(c.kind) + " " + c.argument
  }

  /** An argument a request line can carry verbatim: it does not start with whitespace, does not
      end in CR or LF, and fits the argument buffer and the request buffer after the verb. */
  predicate Transmittable(c: Command) {
    |c.argument| < ArgumentSize && |Verb(c.kind)| + 1 + |c.argument| < LineSize &&
    (c.argument != [] ==> !IsSpace(c.argument[0]) && !IsLineBreak(c.argument[|c.argument| - 1]))
  }

  /** Every character of `s` is whitespace. */
  predicate Blank(s: string) {
    forall i :: 0 <= i < |s| ==> IsSpace(s[i])
  }

  /** No character of `s` is whitespace. */
  predicate Word(s: string) {
    forall i :: 0 <= i < |s| ==> !IsSpace(s[i])
  }

  /** A request with nothing but whitespace and line breaks fails to parse and carries no argument. */
  lemma BlankLineFails(raw: string)
    requires Blank(Truncate(raw, LineSize - 1))
    ensures Parsed(raw) == ZeroCommand
  {
    var t := Truncate(raw, LineSize - 1);
    var line := RequestLine(raw);
    forall i | 0 <= i < |line| ensures IsSpace(line[i]) {
      assert line[i] == t[i];
    }
  }

  /** A parsed command has a known verb only if the line held a non-blank character. */
  lemma ParsedHasVerb(raw: string)
    requires Parsed(raw).kind != Invalid
    ensures !Blank(RequestLine(raw))
  {
    var line := RequestLine(raw);
    assert !IsSpace(line[SpaceEnd(line, 0)]);
  }

  lemma {:induction false} TokenEndAt(s: string, i: nat, j: nat, room: nat)
    requires i <= j <= |s| && j - i <= room
    requires forall k :: i <= k < j ==> !IsSpace(s[k])
    requires j == |s| || IsSpace(s[j]) || j - i == room
    ensures TokenEnd(s, i, room) == j
    decreases room
  {
    if i < j {
      TokenEndAt(s, i + 1, j, room - 1);
    }
  }

  /** Parsing a line that needs no trimming, once the positions of its verb and argument are known. */
  lemma ParsedAt(line: string, verbEnd: nat, rest: nat)
    requires |line| < LineSize && (line == [] || !IsLineBreak(line[|line| - 1]))
    requires 0 < verbEnd <= rest <= |line| && !IsSpace(line[0])
    requires TokenEnd(line, 0, VerbSize - 1) == verbEnd && SpaceEnd(line, verbEnd) == rest
    ensures Parsed(line) == Command(ParseType(line[..verbEnd]), if rest < |line| then Truncate(line[rest..], ArgumentSize - 1) else [])
  {
    StripLineBreaksNone(line);
    assert RequestLine(line) == line;
    assert SpaceEnd(line, 0) == 0;
  }

  /** A word of at most 31 characters alone on a line parses to that word's command. */
  lemma ParseWord(v: string)
    requires 0 < |v| < VerbSize && Word(v)
    ensures Parsed(v) == Command(ParseType(v), [])
  {
    TokenEndAt(v, 0, |v|, VerbSize - 1);
    assert v[..|v|] == v;
    ParsedAt(v, |v|, |v|);
  }

  /** A word of at most 31 characters, a space and an argument that starts with a non-blank parse
      to that word's command and that argument. */
  lemma ParseWordArgument(v: string, arg: string)
    requires 0 < |v| < VerbSize && Word(v)
    requires 0 < |arg| < ArgumentSize && |v| + 1 + |arg| < LineSize
    requires !IsSpace(arg[0]) && !IsLineBreak(arg[|arg| - 1])
    ensures Parsed(v + " " + arg) == Command(ParseType(v), arg)
  {
    var line := v + " " + arg;
    forall k | 0 <= k < |v| ensures !IsSpace(line[k]) {
      assert line[k] == v[k];
    }
    assert line[|v|] == ' ';
    TokenEndAt(line, 0, |v|, VerbSize - 1);
    assert line[|v| + 1] == arg[0];
    assert SpaceEnd(line, |v|) == |v| + 1;
    assert line[..|v|] == v;
    assert line[|v| + 1..] == arg;
    assert line[|line| - 1] == arg[|arg| - 1];
    ParsedAt(line, |v|, |v| + 1);
  }

  /** A line made of a word of at most 31 characters, then optionally a space and an argument
      that starts with a non-blank, parses to that word's command and that argument. */
  lemma ParseWords(v: string, arg: string)
    requires 0 < |v| < VerbSize && Word(v)
    requires |arg| < ArgumentSize && |v| + 1 + |arg| < LineSize
    requires arg != [] ==> !IsSpace(arg[0]) && !IsLineBreak(arg[|arg| - 1])
    ensures Parsed(if arg == [] then v else v + " " + arg) == Command(ParseType(v), arg)
  {
    if arg == [] {
      ParseWord(v);
    } else {
      ParseWordArgument(v, arg);
    }
  }

  lemma VerbIsWord(kind: CommandType)
    requires kind != Invalid
    ensures 0 < |Verb(kind)| < VerbSize && Word(Verb(kind))
  {
    var v := Verb(kind);
    forall i | 0 <= i < |v| ensures !IsSpace(v[i]) {
      match kind
      case Ping => assert v == "PING";
      case Search => assert v == "SEARCH";
      case Store => assert v == "STORE";
      case Shutdown => assert v == "SHUTDOWN";
    }
  }

  /** Sending a command's text and parsing it gives back that command: the verb is read up to the
      space, and the argument verbatim, trailing spaces included. */
  lemma ParseRender(c: Command)
    requires c.kind != Invalid && Transmittable(c)
    ensures Parsed(Render(c)) == c
  {
    VerbIsWord(c.kind);
    ParseWords(Verb(c.kind), c.argument);
    ParseTypeExact(Verb(c.kind), c.kind);
  }

  /** A command that validates and parses back from its text is accepted by the round trip. */
  lemma ValidRoundTrip(c: Command)
    requires Validate(c) && Transmittable(c)
    ensures Validate(Parsed(Render(c)))
  {
    ParseRender(c);
  }

  /** Trailing line breaks do not reach the parser. */
  lemma ParseIgnoresLineBreak(line: string)
    requires |line| + 1 < LineSize
    ensures Parsed(line + "\n") == Parsed(line)
  {
    var raw := line + "\n";
    assert raw[..|raw| - 1] == line;
    assert StripLineBreaks(raw) == StripLineBreaks(line);
  }

  /** SEARCH and STORE without an argument, even followed by blanks, do not validate;
      SHUTDOWN alone does. */
  lemma SearchNeedsArgument()
    ensures !Validate(Parsed("SEARCH"))
  {
    ParseRender(Command(Search, ""));
  }

  lemma StoreNeedsArgument()
    ensures !Validate(Parsed("STORE \r\n"))
  {
    var line := "STORE ";
    assert RequestLine("STORE \r\n") == line by {
      assert "STORE \r\n"[..7] == "STORE \r";
      assert "STORE \r"[..6] == line;
    }
    assert Word("STORE");
    TokenEndAt(line, 0, 5, VerbSize - 1);
    assert line[..5] == Verb(Store);
    ParsedAt(line, 5, 6);
    ParseTypeExact("STORE", Store);
  }

  lemma ShutdownAlone()
    ensures Validate(Parsed("SHUTDOWN"))
  {
    ParseRender(Command(Shutdown, ""));
  }

  /** The examples of the parser's test: a newline-terminated PING, a two-word search query,
      a STORE with a JSON payload, and an unknown verb. */
  lemma ParsePingLine()
    ensures Parsed("PING\n") == Command(Ping, "")
  {
    assert Render(Command(Ping, "")) == "PING";
    ParseIgnoresLineBreak("PING");
    ParseRender(Command(Ping, ""));
  }

  lemma ParseSearchQuery()
    ensures Parsed("SEARCH adaptive reuse") == Command(Search, "adaptive reuse")
  {
    var c := Command(Search, "adaptive reuse");
    assert Verb(Search) + " " == "SEARCH ";
    assert Render(c) == "SEARCH adaptive reuse";
    assert Transmittable(c);
    ParseRender(c);
  }

  lemma ParseStorePayload()
    ensures Parsed("STORE {\"data\":1}") == Command(Store, "{\"data\":1}")
  {
    var c := Command(Store, "{\"data\":1}");
    assert Verb(Store) + " " == "STORE ";
    assert Render(c) == "STORE {\"data\":1}";
    assert Transmittable(c);
    ParseRender(c);
  }

  lemma ParseUnknownVerb()
    ensures Parsed("UNKNOWN").kind == Invalid
  {
    assert Word("UNKNOWN");
    ParseWords("UNKNOWN", "");
  }
}
