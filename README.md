# DeerBourne back-end core, modelled in Dafny

Bourne is a small line-protocol record service. A client sends one line `<verb> [argument]`:

- `PING` is answered with `PONG`.
- `SEARCH <q>` lists the records whose title, summary or raw text contains `q`, ignoring ASCII case.
- `STORE <payload>` appends a record built from a JSON-like payload.
- `SHUTDOWN` stops the service.

The records live in one capacity-bounded, insertion-ordered table. At start-up the table is filled from a sample file, split into top-level `{...}` fragments. If that yields nothing, four built-in records are used instead. Deer is the desktop front-end, and its UI settings file is a list of `key=value` lines.

The model has seven modules in six files:

- `text.dfy` (`Text`): the C string operations the core relies on, written over `seq<char>`. These are `strncpy`/`strncat` truncation, `strchr`, `strstr`, NUL termination, ASCII `tolower`, `%zu` formatting and the trailing CR/LF strip.
- `storage.dfy` (`Storage`): the record table (bourne/src/storage.c) as a class over a fixed array with a counter. Also field extraction, quote trimming, the brace scanner, the built-in records, store and search. The texts of the four built-in records sit in a small module `Builtin` at the head of the file, with facts about the characters they contain.
- `query.dfy` (`Query`): the command codec (bourne/src/query.c). It has the parser as a method, a reference function it is proved against, and round-trip lemmas between rendering and parsing a command.
- `config.dfy` (`Config`): the server defaults and the validation chain (bourne/src/config.c).
- `service.dfy` (`Service`): the effective configuration, the reply sent for one received request, initialisation with its rollback, and the stop path (bourne/src/service.c). Sockets are integer handles. `send` appends to a log of messages, and closing a handle appends it to a log of closed handles.
- `ui_config.dfy` (`UiConfig`): the front-end's UI settings (deer/src/ui_config.c): defaults, trimming, boolean parsing, entry application and the line loop of loading.

Code that mutates state stays imperative:

- The table, the service state and the UI settings are classes with `modifies` clauses.
- The in-place pointer loops (`trim_quotes`, `trim_newlines`, `deer_trim`, `skip_spaces`, the verb copy, the brace scan, the search loop and the case-insensitive match) are `while` loops with invariants.
- Each such method is proved equal to a specification function. The properties of that function are then proved as lemmas.

The table's capacity `BOURNE_MAX_RECORDS` and the sizes of a record's three character arrays are not defined in any header that is part of this model. They are the parameters `Limits(capacity, titleSize, summarySize, rawSize)`, each only required to be positive.

Three behaviours of the code worth knowing, each modelled as written:

- `bourne_storage_load` returns whether some fragment produced a record, not a count of records.
- `bourne_service_request_stop` resets only a non-negative listener handle to -1. A different negative value is left as it was, hence `ServiceState.Released`.
- The table has no lock, so the model is sequential.

## Model

| member | source | states |
|---|---|---|
| Text.TrimNewlines | bourne/src/query.c:15-24 | The in-place loop leaves the text with every trailing CR and LF removed, and only those (`StripLineBreaks`: a prefix that ends in no line break, cut only at line breaks). |
| Text.StripLineBreaksNone | bourne/src/storage.c:101-111 | Text that does not end in CR or LF is left unchanged, so other trailing whitespace is kept. |
| Text.NatToStringValue | bourne/src/storage.c:22-37 | The decimal digits written for `%zu` denote the value itself. |
| Text.NatToStringInjective | bourne/src/storage.c:22-37 | Different counts are written as different digit strings. |
| Text.StrncatTruncate | bourne/src/storage.c:322-324 | Appending with `strncat` into the room left in a bounded buffer gives the bounded prefix of the whole concatenation. |
| Text.UpToNulClean | bourne/src/service.c:62-69 | A received text with no NUL byte is read back entirely as the C string. |
| Text.LowerIdempotent | bourne/src/storage.c:285-302 | ASCII case folding applied twice is the same as applied once. |
| Storage.SetMessage | bourne/src/storage.c:22-37 | With no buffer no message is written; otherwise the message is shorter than the buffer. |
| Storage.SetMessageFills | bourne/src/storage.c:22-37 | A format whose only `%` is one `%zu` is written with the decimal value in its place, truncated to the buffer. |
| Storage.SetMessageLiteral | bourne/src/storage.c:22-37 | A format without `%` is written unchanged, truncated to the buffer. |
| Storage.ExtractField | bourne/src/storage.c:63-99 | A field that is found fits the buffer, contains no quote, is non-empty when the buffer holds more than a terminator, and occurs in the entry after an occurrence of `"key"`. |
| Storage.ExtractFieldFound | bourne/src/storage.c:63-99 | With the key, colon and both quotes found in order, the result is exactly the text between the quotes, truncated to `bufferLen - 1`. |
| Storage.ExtractFieldAt | bourne/src/storage.c:63-99 | The same result stated through positions: first key, first colon after it, first quote after that, first quote after that. |
| Storage.ExtractFieldOfMember | bourne/src/storage.c:63-99 | For an entry containing a member `"key":<gap>"value"` before which the key does not occur, the result is the value truncated to the buffer. |
| Storage.ExtractFieldMissing | bourne/src/storage.c:63-99 | An absent key, or a buffer of size 0, yields no field. |
| Storage.ExtractFieldNoColon | bourne/src/storage.c:75-78 | No ':' after the key yields no field. |
| Storage.ExtractFieldNoQuote | bourne/src/storage.c:80-83 | No opening quote after the colon yields no field. |
| Storage.ExtractFieldUnclosed | bourne/src/storage.c:86-89 | No closing quote after the opening one yields no field. |
| Storage.ExtractFieldEmptyValue | bourne/src/storage.c:84-89 | An empty quoted value yields no field. |
| Storage.ExtractFieldClosed | bourne/src/storage.c:63-99 | With all four delimiters found, the result is none exactly when the buffer is absent or the value is empty, and otherwise the truncated value. |
| Storage.ExtractFieldThrough | bourne/src/storage.c:63-99 | After the opening quote, the result depends only on where the next quote is. |
| Storage.QuoteStartSkips | bourne/src/storage.c:48-53 | The start skips only whitespace and then at most one quote: when it stops at a quote or a blank, the character before it is the one quote skipped. |
| Storage.TrimmedQuotes | bourne/src/storage.c:44-61 | The result starts after the leading whitespace and at most one quote, ends before the trailing run of quotes and whitespace, and does not end in either. |
| Storage.TrimmedQuotesExamples | bourne/src/storage.c:44-61 | `""ab"` trims to `"ab` and `" ab"` to ` ab`: only one leading quote is dropped, and a blank after it stays. |
| Storage.TrimQuotes | bourne/src/storage.c:44-61 | The two pointer loops stop exactly at the ends of that slice. |
| Storage.TrimQuotesStable | bourne/src/storage.c:44-61 | Trimming again after the terminator was written into the text gives the same slice. |
| Storage.Sanitized | bourne/src/storage.c:113-120 | The sanitized payload is a prefix of the payload that fits the buffer and ends in no line break. |
| Storage.SanitizePayload | bourne/src/storage.c:113-120 | The method leaves nothing for a zero-size buffer, and otherwise exactly the sanitized payload. |
| Storage.EntryRecord | bourne/src/storage.c:122-144 | A loaded record's fields fit their arrays, and its raw text is a prefix of the quote-trimmed fragment. |
| Storage.StoredRecord | bourne/src/storage.c:255-283 | A stored record's fields fit their arrays. |
| Storage.StoredDefaults | bourne/src/storage.c:270-276 | A missing title becomes `User entry <count+1>`; a missing summary becomes the first 120 characters of the quote-trimmed sanitized payload. |
| Storage.BuildStoredRecord | bourne/src/storage.c:266-278 | The record built in place, with the terminator `trim_quotes` writes, equals the stored record. |
| Storage.StoreMessageNoPayload | bourne/src/storage.c:256-259 | An empty payload is reported as `No payload provided`. |
| Storage.StoreMessageFull | bourne/src/storage.c:261-264 | A full table is reported as `Storage full (<count> records)` with the current count. |
| Storage.StoreMessageStored | bourne/src/storage.c:279-281 | An accepted entry is reported as `Stored entry #<new count>`. |
| Storage.StoreMessage | bourne/src/storage.c:255-283 | The status text is absent only without a buffer, and otherwise fits it. |
| Storage.ScanFrom | bourne/src/storage.c:171-197 | Every range the brace scanner emits is a non-empty range within the buffer. |
| Storage.ScanFromStep | bourne/src/storage.c:180-194 | One character of the scan: a closing brace at depth 1 with an open entry emits that entry and restarts; otherwise depth and start are updated. |
| Storage.ScanFromFragments | bourne/src/storage.c:171-197 | From any scanner state that matches the text read so far, every range emitted is a `{...}` block opening where the braces before it balance, whose proper prefixes stay open, in left-to-right order without overlap. |
| Storage.FragmentsAreTopLevel | bourne/src/storage.c:171-197 | The ranges scanned from a whole buffer are exactly its top-level blocks: each one is such a block, in order and not overlapping, and every such block is among them, so nested braces never start a record. |
| Storage.ScanStep | bourne/src/storage.c:180-194 | The scanner's depth always equals the brace balance of all the text read; while an entry is open, its start balances the text before it, and a `}` bringing the depth back to zero closes a top-level block. |
| Storage.ScanCloses | bourne/src/storage.c:180-194 | Inside an open top-level block, the scan emits that block next, at its closing brace. |
| Storage.ScanFinds | bourne/src/storage.c:171-197 | Every top-level block starting at or after the scanner's position is emitted. |
| Storage.Fragments | bourne/src/storage.c:171-197 | The scan of a whole buffer yields non-empty ranges within the buffer. |
| Storage.FragmentsExamples | bourne/src/storage.c:180-194 | `{a}{b}` yields two fragments; `{{a}` yields none, since its inner block never returns the depth to zero. |
| Storage.EntryRecords | bourne/src/storage.c:122-144 | One record per fragment. |
| Storage.EntryRecordsSnoc | bourne/src/storage.c:188-191 | Emitting a fragment appends exactly its record. |
| Storage.AppendCapped | bourne/src/storage.c:122-124 | Appending stops at capacity: the table never exceeds it and earlier records are kept. |
| Storage.AppendCappedStep | bourne/src/storage.c:122-124 | One more record is appended exactly when there is room. |
| Storage.AppendCappedFull | bourne/src/storage.c:162-162 | Once the table is full, further records add nothing. |
| Storage.ClippedAll | bourne/src/storage.c:146-169 | Each built-in record is copied field by field, clipped to its array. |
| Storage.ClippedFallback | bourne/src/storage.c:146-169 | There are exactly four built-in records, each clipped to the arrays. |
| Storage.InitialRecordsShape | bourne/src/storage.c:237-245 | After initialisation the table is non-empty and within capacity; with no usable sample file it holds the built-in records, all four when they fit. |
| Storage.InitialRecords | bourne/src/storage.c:237-245 | The initial table is non-empty and within capacity. |
| Storage.ContainsCaseInsensitive | bourne/src/storage.c:285-302 | The nested loops answer exactly whether the non-empty needle occurs at some position, comparing with ASCII `tolower`. |
| Storage.ContainsIgnoreCase | bourne/src/storage.c:285-302 | A needle that matches is non-empty and no longer than the haystack. |
| Storage.MatchRecord | bourne/src/storage.c:319-320 | A record matches when its title, its summary or its raw text contains the query. |
| Storage.Matching | bourne/src/storage.c:304-333 | The matching records are at most the table's records. |
| Storage.MatchingSound | bourne/src/storage.c:304-333 | Every record listed is in the table and matches the query. |
| Storage.MatchingComplete | bourne/src/storage.c:304-333 | A record of the table is listed if and only if it matches the query. |
| Storage.MatchingStep | bourne/src/storage.c:317-326 | Matches are listed in insertion order: a new last record comes last when it matches. |
| Storage.LinesStep | bourne/src/storage.c:322-324 | Each match adds its `title — summary` line after the earlier ones. |
| Storage.AppendLine | bourne/src/storage.c:322-324 | Appending a line into the bounded buffer gives the bounded prefix of all lines so far. |
| Storage.SearchText | bourne/src/storage.c:304-333 | The search text is absent only without a buffer, and otherwise fits it. |
| Storage.MatchCount | bourne/src/storage.c:304-333 | The count is at most the number of records, and positive only for a non-empty query and a real buffer. |
| Storage.MatchingFirst | bourne/src/storage.c:317-326 | A matching first record leads the matches. |
| Storage.LinesFirst | bourne/src/storage.c:322-324 | The result text starts with the first match's line. |
| Storage.LineShowsSummary | bourne/src/storage.c:323-323 | A word opening a record's summary sits right after its title and ` — ` in its result line. |
| Storage.LeadingSummaryShows | bourne/src/storage.c:322-324 | Such a word of the first match shows in the buffer when the buffer reaches past it. |
| Storage.SearchOutcomes | bourne/src/storage.c:304-333 | An empty query counts 0 and writes `No query provided`; a query nothing matches counts 0 and writes `No matches found for '<q>'`; otherwise the count is positive and the buffer holds the match lines. |
| Storage.SearchFindsAppended | bourne/src/storage.c:304-333 | A query that occurs in the title of the last record added finds it: one more match, and its line comes last. |
| Storage.InitialSearchFindsUrban | tests/test_bourne_storage_search.c:13-19 | With no usable sample file, searching the initial table for `Urban` finds at least one record, and a 256-byte buffer contains `Urban`. |
| Storage.AbsentCharNoMatch | bourne/src/storage.c:285-302 | A needle containing a character that the haystack lacks in both cases never matches. |
| Storage.ClippedNoMatch | bourne/src/storage.c:164-166 | Clipping a text cannot create a match of such a needle. |
| Storage.ClipMisses | bourne/src/storage.c:319-320 | A record whose three texts each lack `-`, or `k` in both cases, never matches `nonexistent-token`, however clipped. |
| Storage.FallbackMisses | bourne/src/storage.c:151-160 | No built-in record, however clipped, matches `nonexistent-token`. |
| Storage.InitialSearchMissesToken | tests/test_bourne_storage_search.c:21-24 | With no usable sample file, searching the initial table for `nonexistent-token` counts 0 and writes `No matches found for 'nonexistent-token'`. |
| Builtin.AriannaOpens | bourne/src/storage.c:152-152 | The first built-in title has 22 characters and its summary opens with `Urban`. |
| Builtin.TitlesLackDash | bourne/src/storage.c:152-158 | No built-in title contains `-`. |
| Builtin.RawsLackDash | bourne/src/storage.c:153-159 | No built-in raw text contains `-`. |
| Builtin.PersonSummariesLackDash | bourne/src/storage.c:152-154 | The two person summaries contain no `-`. |
| Builtin.HarborSummaryLacksDash | bourne/src/storage.c:158-158 | The home summary contains no `-`. |
| Builtin.SolsticeSummaryLacksK | bourne/src/storage.c:156-156 | The car summary, which has `plug-in`, contains no `k` in either case. |
| Storage.StoreWithinCapacity | bourne/src/storage.c:261-264 | An accepted store keeps the table within capacity, and a full table never accepts. |
| Storage.StoredNoteIsFound | tests/test_bourne_storage_store.c:8-24 | The test payload is accepted, its title is `User note`, and a search for `User note` afterwards finds exactly one more match. |
| Storage.RecordStore.constructor | bourne/src/storage.c:39-42 | A new table is empty. |
| Storage.RecordStore.RecordCount | bourne/src/storage.c:251-253 | The count is the number of stored records and at most the capacity. |
| Storage.RecordStore.Reset | bourne/src/storage.c:39-42 | Every slot is cleared and the table is empty. |
| Storage.RecordStore.Append | bourne/src/storage.c:279-279 | A record is appended at index `count`, and earlier records are unchanged. |
| Storage.RecordStore.ParseEntry | bourne/src/storage.c:122-144 | A non-empty range is appended as its record when there is room; otherwise nothing changes. |
| Storage.RecordStore.LoadBuiltinRecords | bourne/src/storage.c:146-169 | The four clipped built-in records are appended, up to capacity. |
| Storage.RecordStore.AppendClipped | bourne/src/storage.c:162-168 | The copy loop appends each clipped record while there is room. |
| Storage.RecordStore.ScanChar | bourne/src/storage.c:180-194 | One step of the scan loop keeps the table equal to the records of the fragments emitted so far. |
| Storage.RecordStore.LoadFromBuffer | bourne/src/storage.c:171-197 | The table gains, up to capacity, the records of `Fragments(buffer)` in order, which are exactly the top-level blocks (`FragmentsAreTopLevel`); the result is true exactly when some fragment closed. |
| Storage.RecordStore.Load | bourne/src/storage.c:199-235 | A missing, empty or oversized file changes nothing and reports false; otherwise the text up to its first NUL is loaded as a buffer. |
| Storage.RecordStore.Init | bourne/src/storage.c:237-245 | The table is reset, then loaded, or filled with the built-in records when loading found nothing; the result is true and the table non-empty. |
| Storage.RecordStore.Shutdown | bourne/src/storage.c:247-249 | The table is empty. |
| Storage.RecordStore.Store | bourne/src/storage.c:255-283 | An empty payload or a full table is refused with its message and the table unchanged; otherwise exactly one record is appended at the old count, with the `Stored entry #<n>` message. |
| Storage.RecordStore.Search | bourne/src/storage.c:304-333 | The count and buffer text are those of the matching records, and the table is unchanged. |
| Query.ParseType | bourne/src/query.c:33-52 | A recognised verb equals the token ignoring case. |
| Query.ParseTypeExact | bourne/src/query.c:33-52 | The token is recognised as a command if and only if it equals that command's verb ignoring case. |
| Query.ParseTypeIgnoresCase | bourne/src/query.c:33-52 | Changing the token's case does not change the command. |
| Query.SkipSpaces | bourne/src/query.c:26-31 | The cursor stops at the first non-whitespace character or at the end. |
| Query.TokenEnd | bourne/src/query.c:70-75 | The verb ends at whitespace, the end of the line, or after 31 characters, and contains no whitespace. |
| Query.TokenEndAt | bourne/src/query.c:70-75 | Any position meeting those conditions is where the verb ends. |
| Query.CopyVerb | bourne/src/query.c:70-75 | The copy loop takes exactly the verb. |
| Query.RequestLine | bourne/src/query.c:61-62 | At most 1023 characters of input are examined. |
| Query.Parsed | bourne/src/query.c:78-82 | The argument fits its 512-byte buffer. |
| Query.Validate | bourne/src/query.c:87-97 | A valid command has a known verb, and PING and SHUTDOWN are valid whatever their argument. |
| Query.ParseCommand | bourne/src/query.c:54-85 | The parser fills the command as the reference definition says and succeeds exactly when the verb is recognised. |
| Query.BlankLineFails | bourne/src/query.c:63-68 | A line of only whitespace and line breaks fails, leaving the zeroed command. |
| Query.ParsedHasVerb | bourne/src/query.c:63-68 | A command that parsed came from a line that was not blank. |
| Query.ParsedAt | bourne/src/query.c:54-85 | The command is the verb's type plus the rest of the line after the verb and its whitespace run, kept verbatim; the argument is empty when nothing follows. |
| Query.ParseWord | bourne/src/query.c:59-59 | A lone verb parses with an empty argument, since the command is zeroed first. |
| Query.ParseWordArgument | bourne/src/query.c:78-82 | `verb argument` parses to that verb and exactly that argument. |
| Query.ParseWords | bourne/src/query.c:54-85 | Both cases together. |
| Query.VerbIsWord | bourne/src/query.c:33-52 | Every protocol verb fits the 32-byte verb buffer and contains no whitespace. |
| Query.ParseRender | bourne/src/query.c:54-85 | Rendering a command and parsing it gives the command back. |
| Query.ValidRoundTrip | bourne/src/query.c:87-97 | A valid command is still valid after the round trip. |
| Query.ParseIgnoresLineBreak | bourne/src/query.c:15-24 | A trailing newline does not change the parse. |
| Query.SearchNeedsArgument | bourne/src/query.c:87-97 | SEARCH without an argument is invalid. |
| Query.StoreNeedsArgument | bourne/src/query.c:87-97 | STORE with only whitespace and a line break is invalid. |
| Query.ShutdownAlone | tests/test_bourne_query_parser.c:27-29 | SHUTDOWN alone parses and is valid. |
| Query.ParsePingLine | tests/test_bourne_query_parser.c:14-16 | `PING\n` parses to PING with no argument. |
| Query.ParseSearchQuery | tests/test_bourne_query_parser.c:18-21 | `SEARCH adaptive reuse` parses to SEARCH with argument `adaptive reuse`. |
| Query.ParseStorePayload | tests/test_bourne_query_parser.c:23-25 | `STORE {"data":1}` parses to STORE with the payload as argument. |
| Query.ParseUnknownVerb | tests/test_bourne_query_parser.c:31-31 | `UNKNOWN` does not parse. |
| Config.UseDefaults | bourne/src/config.c:10-24 | Address `127.0.0.1`, port 5555, backlog 8, 4 workers. |
| Config.Validate | bourne/src/config.c:26-48 | A configuration is accepted if and only if the address is set and non-empty, the port is non-zero, the backlog positive and the worker count non-zero. |
| Config.PortBoundUnreachable | bourne/src/config.c:35-37 | For a 16-bit port the `> USHRT_MAX` check never fires; only port 0 is rejected. |
| Config.DefaultsValid | tests/test_bourne_config.c:12-19 | The defaults pass validation. |
| Config.ValidateRejects | bourne/src/config.c:31-45 | Each check on its own rejects an otherwise valid configuration: null or empty address, port 0, backlog ≤ 0, no workers. |
| Service.PreparedUnset | bourne/src/service.c:39-51 | No overrides, or all-unset overrides, give the defaults. |
| Service.PreparedStable | bourne/src/service.c:39-51 | Preparing twice is the same as once, and fully set overrides are taken as they are. |
| Service.PreparedValid | bourne/src/service.c:39-51 | The prepared configuration fails validation only for an empty address or a negative backlog. |
| Service.Prepared | bourne/src/service.c:39-51 | The prepared configuration always has an address, and a non-zero port, backlog and worker count. |
| Service.Accepted | bourne/src/service.c:62-76 | A request line is dispatched only as a valid, recognised command. |
| Service.Received | bourne/src/service.c:62-69 | The received text is a prefix of what was sent, shorter than the 256-byte buffer, with no NUL. |
| Service.Dispatch | bourne/src/service.c:78-117 | An accepted command is always answered, and only on the client's handle. |
| Service.Reply | bourne/src/service.c:57-119 | Something is sent exactly when the handle is valid and data arrived, and only on that handle. |
| Service.TableAfter | bourne/src/service.c:93-104 | A request grows the table by at most one record, keeps the earlier ones, and never past capacity. |
| Service.Stops | bourne/src/service.c:106-110 | A request stops the service exactly when data arrived on a valid handle and parses as SHUTDOWN. |
| Service.InvalidRequest | bourne/src/service.c:72-76 | A line that fails to parse or validate gets exactly `ERROR invalid command\n`, no table change and no stop. |
| Service.NothingReceived | bourne/src/service.c:63-67 | When nothing was received nothing is sent, the table is unchanged and the service keeps running. |
| Service.StoreReplyNotShutdown | bourne/src/service.c:93-110 | A STORE reply is never the shutdown notice. |
| Service.DispatchShutdown | bourne/src/service.c:78-117 | Every accepted command gets a reply; it is the lone `SHUTTING DOWN\n` exactly for SHUTDOWN. |
| Service.RepliesWhenReceived | bourne/src/service.c:57-119 | A received request always gets a reply; it is the shutdown notice exactly when the request stops the service. |
| Service.TableChangesOnlyByStore | bourne/src/service.c:93-104 | Any request leaves the table unchanged or appends the stored record of an accepted STORE. |
| Service.AcceptedRender | bourne/src/service.c:62-76 | A valid command sent as its rendered line is dispatched as that command. |
| Service.ReplyAccepted | bourne/src/service.c:78-117 | An accepted line is answered by the dispatch of its command. |
| Service.PingAnswered | bourne/src/service.c:79-83 | `PING\n` is answered with `PONG\n`. |
| Service.PingLineAccepted | bourne/src/service.c:62-76 | `PING\n` is accepted as PING. |
| Service.SearchAnswered | bourne/src/service.c:84-91 | `SEARCH q` is answered with `RESULT <n>\n`, n being the number of matches, then the search text. |
| Service.SearchLineAccepted | bourne/src/service.c:62-76 | `SEARCH q` is accepted as SEARCH with argument q. |
| Service.DispatchStored | bourne/src/service.c:93-99 | An accepted STORE is answered `STORED Stored entry #<n>\n`. |
| Service.StoreLineAccepted | bourne/src/service.c:62-76 | `STORE p` is accepted as STORE with argument p. |
| Service.StoreAnswered | bourne/src/service.c:93-99 | A storable `STORE p` line is answered `STORED Stored entry #<n>\n`. |
| Service.StoreAppends | bourne/src/service.c:93-99 | A storable `STORE p` line appends exactly its record. |
| Service.StopClosesOnce | bourne/src/service.c:207-228 | A released handle is negative and stays released, and a second stop closes nothing more. |
| Service.ServiceState.constructor | bourne/src/service.c:148-149 | A new state has no listener, is not running and has sent and closed nothing. |
| Service.ServiceState.Close | bourne/src/network.c:73-79 | Only a non-negative handle is closed. |
| Service.ServiceState.Send | bourne/src/service.c:57-119 | A send logs exactly one message. |
| Service.ServiceState.PrepareConfig | bourne/src/service.c:39-51 | The field-by-field overwriting gives the prepared configuration. |
| Service.ServiceState.Init | bourne/src/service.c:143-171 | An invalid configuration fails before the table is touched; a listener failure shuts the table down; success leaves the initial records and the listener handle. |
| Service.ServiceState.RequestStop | bourne/src/service.c:218-228 | The service stops running and the listener is closed once and released. |
| Service.ServiceState.Stop | bourne/src/service.c:207-216 | The same, the released handle is not closed again, and the table is emptied. |
| Service.ServiceState.DispatchCommand | bourne/src/service.c:78-117 | The messages of the dispatch are sent; only STORE changes the table and only SHUTDOWN changes the lifecycle. |
| Service.ServiceState.HandleClient | bourne/src/service.c:57-119 | Exactly the reply is sent, the table becomes its state after the request, and the service stops exactly when the request stops it. |
| UiConfig.Defaults | deer/src/ui_config.c:14-53 | Theme `DeerBourne Modern`, colours `#0B1E2D`, `#E5E9F0`, `#5FD1FF`, and all seven layout flags shown. |
| UiConfig.Trimmed | deer/src/ui_config.c:55-70 | The trimmed text neither starts nor ends with whitespace. |
| UiConfig.TrimmedParts | deer/src/ui_config.c:55-70 | The text is the trimmed text between a whitespace-only prefix and suffix. |
| UiConfig.Trim | deer/src/ui_config.c:55-70 | The two pointer loops delimit exactly the trimmed text. |
| UiConfig.TrimmedCore | deer/src/ui_config.c:55-70 | Surrounding whitespace is all that trimming removes. |
| UiConfig.TrimIdempotent | deer/src/ui_config.c:55-70 | Trimming twice is the same as trimming once. |
| UiConfig.ParseBoolCases | deer/src/ui_config.c:72-86 | No word is both true and false; the result is true exactly for a true word, or for another non-false value when the fallback is true. |
| UiConfig.ParseBoolWords | deer/src/ui_config.c:72-86 | `true`/`yes` in any case and `1` give true; `false`/`no` and `0` give false; other values and a null value give the fallback. |
| UiConfig.ParseBool | deer/src/ui_config.c:72-86 | A null value keeps the fallback; the result differs from the fallback only for a recognised word, true for a true word and false for a false one. |
| UiConfig.KeyIndex | deer/src/ui_config.c:93-119 | The first key that matches ignoring case, or none when no key matches. |
| UiConfig.KeyIndexIgnoresCase | deer/src/ui_config.c:93-119 | Key lookup ignores case. |
| UiConfig.AppliedIgnoresCase | deer/src/ui_config.c:93-119 | Applying an entry ignores the key's case. |
| UiConfig.AppliedString | deer/src/ui_config.c:93-104 | A string key replaces only its own field. |
| UiConfig.AppliedSwitch | deer/src/ui_config.c:105-118 | A layout key updates only its flag, parsed with the current value as fallback. |
| UiConfig.AppliedUnknown | deer/src/ui_config.c:88-120 | An unknown key changes nothing. |
| UiConfig.Applied | deer/src/ui_config.c:88-120 | A key that names no string field leaves the strings as they were, one that names no layout flag leaves the layout, and a present string setting stays present. |
| UiConfig.KeyMatchesOne | deer/src/ui_config.c:93-119 | A key matching a name in the table selects exactly that name. |
| UiConfig.KeyMissing | deer/src/ui_config.c:93-119 | A layout key never selects a string field. |
| UiConfig.ChunkLength | deer/src/ui_config.c:140-141 | `fgets` hands out at least one and at most 255 characters. |
| UiConfig.Chunks | deer/src/ui_config.c:140-141 | Every line read holds 1 to 255 characters. |
| UiConfig.ChunksJoin | deer/src/ui_config.c:140-141 | The lines read put back together are the file's text, and a newline can only end a line. |
| UiConfig.AppliedLineSplit | deer/src/ui_config.c:142-150 | A line is split at its first `=`, so the value may itself contain `=`, and key and value are trimmed. |
| UiConfig.AppliedLine | deer/src/ui_config.c:142-150 | A line without `=` changes nothing, and a present string setting stays present. |
| UiConfig.AppliedLines | deer/src/ui_config.c:140-150 | Applying the file's lines never removes a string setting: entries only ever write values. |
| UiConfig.AppliedLinesWithoutEntries | deer/src/ui_config.c:142-145 | Lines without `=` change nothing. |
| UiConfig.UiConfig.constructor | tests/test_deer_config.c:12-12 | A zeroed settings structure. |
| UiConfig.UiConfig.UseDefaults | deer/src/ui_config.c:36-53 | The settings become the defaults. |
| UiConfig.UiConfig.Free | deer/src/ui_config.c:157-171 | The four strings become null and the layout is kept. |
| UiConfig.UiConfig.ApplyEntry | deer/src/ui_config.c:88-120 | The settings become those with the entry applied. |
| UiConfig.UiConfig.ApplyLine | deer/src/ui_config.c:142-150 | One line of the loop, split in place and trimmed, is applied as the reference line step says. |
| UiConfig.UiConfig.Load | deer/src/ui_config.c:122-155 | The settings are reset to the defaults; without a path or with an unreadable file the result is false and the defaults stay; otherwise every line is applied in order and the result is true. Either way every string setting is present afterwards. |

## Left out

- Sockets (bourne/src/network.c) are not modelled, apart from `bourne_network_close`. `bourne_network_listen` is the parameter `listenResult` of `ServiceState.Init`. A client's request is the text `data`, of which one `recv` into a 256-byte buffer keeps at most 255 bytes up to the first NUL.
- Concurrency is not modelled: the worker pool and its accept loop (bourne/src/threading.c, bourne/src/service.c:121-141), the signal handler and `g_stop_requested` (bourne/src/service.c:25-37), and the polling in `bourne_service_run`. The table is shared by workers without a lock; the model is sequential and claims nothing about interleavings.
- `ServiceState.Stop` does not model joining the worker pool.
- The file I/O of `bourne_storage_load` (bourne/src/storage.c:199-235: `fopen`, `fseek`, `fread`) is replaced by its outcome, an `Option<string>` holding the file's contents. The size checks (empty, over 100000 bytes) are kept.
- `RecordStore.Load`: NUL bytes inside the file's contents cut the buffer at the first NUL.
- The `fopen`/`fgets`/`fclose` part of `deer_load_ui_config` is replaced by the `Source` datatype. `fgets` is modelled by `Chunks`: pieces of at most 255 characters, each ending at a newline. Lines containing NUL bytes are not modelled.
- Logging (`BOURNE_LOG_*`, the `fprintf` to `stderr`) is not modelled.
- `malloc`/`strdup` failure is not modelled: `deer_strdup` always yields its copy.
- Memory is not modelled: the leaks of calling `deer_ui_config_use_defaults` twice, and freeing, are not modelled; `Free` only sets the four strings to null.
- The null-pointer guards (a null state, config, key or value) are not modelled. Every argument is present, except the UI config path (`Source.NoPath`) and the bind address (`Option`).
- `ServiceState.Init` does not model the `bourne_storage_init` failure branch (bourne/src/service.c:158-161): `RecordStore.Init` always succeeds, as `Storage.RecordStore.Init` proves.
- `Service.Dispatch` keeps the `ERROR unsupported` default branch (bourne/src/service.c:112-117) only for `Invalid`, which `Service.Accepted` never lets through.
- `Config.UseDefaults` is a function returning the configuration rather than a procedure writing into a structure; `ServiceState.PrepareConfig` does the writing.
- The characters `·` and `—` in the built-in titles and in result lines are single characters of the model, not their UTF-8 byte sequences, so the truncation lengths of such text may differ from the C byte counts.
- `BOURNE_MAX_RECORDS` and the record field sizes are parameters (`Storage.Limits`) and not fixed numbers, because the header that defines them is not part of this model.
- `deer/include/deer/ui_config.h` as shown lacks the layout flags the code writes; `UiConfig.Layout` models them as seven booleans.
- Case folding is ASCII only (`tolower`, `strcasecmp`), as in the code; locales are not modelled.
