/** The back-end service (bourne/src/service.c): the effective configuration,
    the reply to one request line, and the listener's lifecycle. Sockets are
    integer handles; sending appends to a log of messages and closing a handle
    appends it to a log of closed handles. */
module Service {
  import opened Text
  import Config
  import opened Query
  import opened Storage

  /** Bytes sent on a client handle. */
  datatype Message = Message(fd: int, text: string)

  // ---------------------------------------------------------------------------
  // Effective configuration

  /** An override takes the place of a default when it is set: a non-null address, a non-zero number. */
  function Override<T>(present: bool, value: T, default: T): T {
    if present then value else default
  }

  /** The configuration `bourne_prepare_config` leaves in the service state. */
  function Prepared(overrides: Option<Config.ServerConfig>): (r: Config.ServerConfig)
    ensures r.bindAddress.Some? && r.port != 0 && r.backlog != 0 && r.maxWorkers != 0
  {
    var d := Config.UseDefaults();
    match overrides
    case None => d
    case Some(o) =>
      Config.ServerConfig(Override(o.bindAddress.Some?, o.bindAddress, d.bindAddress), Override(o.port != 0, o.port, d.port),
                   Override(o.backlog != 0, o.backlog, d.backlog), Override(o.maxWorkers != 0, o.maxWorkers, d.maxWorkers))
  }

  /** Overrides that are all unset, like a zeroed structure, leave the defaults. */
  lemma PreparedUnset()
    ensures Prepared(Some(Config.ServerConfig(None, 0, 0, 0))) == Config.UseDefaults()
    ensures Prepared(None) == Config.UseDefaults()
  {
  }

  /** Preparing a prepared configuration again changes nothing, and fully set overrides are taken as they are. */
  lemma PreparedStable(overrides: Option<Config.ServerConfig>)
    ensures Prepared(Some(Prepared(overrides))) == Prepared(overrides)
    ensures (overrides.Some? && overrides.value.bindAddress.Some? && overrides.value.port != 0 &&
             overrides.value.backlog != 0 && overrides.value.maxWorkers != 0) ==> Prepared(overrides) == overrides.value
  {
  }

  /** A zero port or worker count is replaced by its default, so only an empty address or a negative
      backlog can make the prepared configuration fail validation. */
  lemma PreparedValid(overrides: Option<Config.ServerConfig>)
    ensures Config.Validate(Prepared(overrides)) <==>
      match overrides
      case None => true
      case Some(o) => o.bindAddress != Some("") && o.backlog >= 0
  {
    var d := Config.UseDefaults();
    Config.DefaultsValid();
    if overrides.Some? {
      var o := overrides.value;
      var c := Prepared(overrides);
      assert c.bindAddress == if o.bindAddress.Some? then o.bindAddress else d.bindAddress;
      assert c.backlog == if o.backlog != 0 then o.backlog else d.backlog;
      assert c.port != 0 && c.maxWorkers != 0;
    }
  }

  // ---------------------------------------------------------------------------
  // Replies

  const ReceiveSize := 256
  const SearchBufferSize := 1024
  const HeaderSize := 64
  const StatusSize := 128
  const ResponseSize := 196

  const InvalidReply := "ERROR invalid command\n"
  const PongReply := "PONG\n"
  const ShutdownReply := "SHUTTING DOWN\n"

  /** The C string in the receive buffer after one `recv` of what the client sent: at most 255 bytes,
      up to the first NUL. */
  function Received(data: string): (r: string)
    ensures r <= data && |r| < ReceiveSize && '\0' !in r
  {
    UpToNul(Truncate(data, ReceiveSize - 1))
  }

  /** The command a request line is dispatched as: `None` when it fails to parse or validate. */
  function Accepted(data: string): (c: Option<Command>)
    ensures c.Some? ==> Validate(c.value) && c.value.kind != Invalid
  {
    var c := Parsed(Received(data));
    if c.kind != Invalid && Validate(c) then Some(c) else None
  }

  function ResultHeader(matches: nat): string {
    Truncate("RESULT " + NatToString(matches) + "\n", HeaderSize - 1)
  }

  /** The reply to STORE given the outcome and the status text of `bourne_storage_store`. */
  function StoreReply(stored: bool, status: string): string {
    if stored then Truncate("STORED " + status + "\n", ResponseSize - 1)
    else Truncate("ERROR " + (if status != [] then status else "store failed") + "\n", ResponseSize - 1)
  }

  /** The messages the `switch` of `bourne_handle_client` sends for an accepted command. */
  function Dispatch(fd: int, c: Command, rs: seq<Record>, limits: Limits): (r: seq<Message>)
    ensures r != [] && forall m :: m in r ==> m.fd == fd
  {
    match c.kind
    case Ping => [Message(fd, PongReply)]
    case Search =>
      [Message(fd, ResultHeader(MatchCount(rs, c.argument, SearchBufferSize))),
       Message(fd, SearchText(rs, c.argument, SearchBufferSize).GetOr(""))]
    case Store =>
      [Message(fd, StoreReply(StoreAccepts(c.argument, |rs|, limits),
                              StoreMessage(c.argument, |rs|, limits, StatusSize).GetOr("")))]
    case Shutdown => [Message(fd, ShutdownReply)]
    case Invalid => [Message(fd, "ERROR unsupported\n")]
  }

  /** Everything `bourne_handle_client` sends on handle `fd` for the text `data` the client sent,
      when the table holds `rs`. Nothing is sent on a negative handle or when nothing was received. */
  function Reply(fd: int, data: string, rs: seq<Record>, limits: Limits): (r: seq<Message>)
    ensures r == [] <==> fd < 0 || data == []
    ensures forall m :: m in r ==> m.fd == fd
  {
    if fd < 0 || data == [] then []
    else match Accepted(data)
      case None => [Message(fd, InvalidReply)]
      case Some(c) => Dispatch(fd, c, rs, limits)
  }

  /** The table after the request: only an accepted STORE that the table accepts appends a record. */
  function TableAfter(fd: int, data: string, rs: seq<Record>, limits: Limits): (r: seq<Record>)
    requires limits.Valid()
    ensures rs <= r && |r| <= |rs| + 1
    ensures |rs| <= limits.capacity ==> |r| <= limits.capacity
  {
    if fd < 0 || data == [] then rs
    else match Accepted(data)
      case Some(c) =>
        if c.kind == Store && StoreAccepts(c.argument, |rs|, limits) then rs + [StoredRecord(c.argument, |rs|, limits)] else rs
      case None => rs
  }

  /** Whether the request stops the service. */
  predicate Stops(fd: int, data: string)
    ensures Stops(fd, data) <==> fd >= 0 && data != [] && Parsed(Received(data)).kind == Shutdown
  {
    fd >= 0 && data != [] && Accepted(data).Some? && Accepted(data).value.kind == Shutdown
  }

  /** A request that fails to parse or validate gets exactly the invalid-command error and never
      reaches the table or the lifecycle. */
  lemma InvalidRequest(fd: int, data: string, rs: seq<Record>, limits: Limits)
    requires limits.Valid() && fd >= 0 && data != [] && Accepted(data).None?
    ensures Reply(fd, data, rs, limits) == [Message(fd, InvalidReply)]
    ensures TableAfter(fd, data, rs, limits) == rs && !Stops(fd, data)
  {
  }

  /** Neither STORE reply reads like the shutdown notice: the second letter differs. */
  lemma StoreReplyNotShutdown(stored: bool, status: string)
    ensures StoreReply(stored, status) != ShutdownReply
  {
    var s := StoreReply(stored, status);
    assert s[1] == if stored then 'T' else 'R';
    assert ShutdownReply[1] == 'H';
  }

  /** A negative handle, or a client that sent nothing, gets no reply and changes nothing. */
  lemma NothingReceived(fd: int, data: string, rs: seq<Record>, limits: Limits)
    requires limits.Valid() && (fd < 0 || data == [])
    ensures Reply(fd, data, rs, limits) == [] && TableAfter(fd, data, rs, limits) == rs && !Stops(fd, data)
  {
  }

  /** Only the shutdown notice is a lone message starting with "SH". */
  lemma DispatchShutdown(fd: int, c: Command, rs: seq<Record>, limits: Limits)
    requires c.kind != Invalid
    ensures |Dispatch(fd, c, rs, limits)| >= 1
    ensures c.kind == Shutdown <==> Dispatch(fd, c, rs, limits) == [Message(fd, ShutdownReply)]
  {
    match c.kind
    case Store =>
      StoreReplyNotShutdown(StoreAccepts(c.argument, |rs|, limits), StoreMessage(c.argument, |rs|, limits, StatusSize).GetOr(""));
    case Ping =>
      assert PongReply[0] != ShutdownReply[0];
    case Search =>
    case Shutdown =>
  }

  /** Every request that was received gets at least one message back, and exactly the requests
      that stop the service are answered with the shutdown notice alone. */
  lemma RepliesWhenReceived(fd: int, data: string, rs: seq<Record>, limits: Limits)
    requires fd >= 0 && data != []
    ensures |Reply(fd, data, rs, limits)| >= 1
    ensures Stops(fd, data) <==> Reply(fd, data, rs, limits) == [Message(fd, ShutdownReply)]
  {
    var a := Accepted(data);
    if a.Some? {
      DispatchShutdown(fd, a.value, rs, limits);
    } else {
      assert InvalidReply[0] != ShutdownReply[0];
    }
  }

  /** The table changes only through an accepted STORE, and then by exactly one record at its end. */
  lemma TableChangesOnlyByStore(fd: int, data: string, rs: seq<Record>, limits: Limits)
    requires limits.Valid()
    ensures TableAfter(fd, data, rs, limits) == rs ||
            (Accepted(data).Some? && Accepted(data).value.kind == Store &&
             TableAfter(fd, data, rs, limits) == rs + [StoredRecord(Accepted(data).value.argument, |rs|, limits)])
  {
  }

  /** A command sent as its own text in one read is accepted as that command. */
  lemma AcceptedRender(c: Command)
    requires Query.Validate(c) && Transmittable(c) && '\0' !in c.argument && |Render(c)| < ReceiveSize
    ensures Accepted(Render(c)) == Some(c)
  {
    var line := Render(c);
    VerbIsWord(c.kind);
    forall i | 0 <= i < |line| ensures line[i] != '\0' {
      if i < |Verb(c.kind)| {
        assert line[i] == Verb(c.kind)[i];
      } else if i > |Verb(c.kind)| {
        assert line[i] == c.argument[i - |Verb(c.kind)| - 1];
      }
    }
    UpToNulClean(line);
    assert Received(line) == line;
    ParseRender(c);
  }

  lemma ReplyAccepted(fd: int, data: string, c: Command, rs: seq<Record>, limits: Limits)
    requires fd >= 0 && data != [] && Accepted(data) == Some(c)
    ensures Reply(fd, data, rs, limits) == Dispatch(fd, c, rs, limits)
  {
  }

  /** Wire-level examples: a PING line is answered PONG; a search is answered with its match count
      and then the result text; a STORE into a table with room reports the new record's number. */
  lemma PingAnswered(fd: int, rs: seq<Record>, limits: Limits)
    requires fd >= 0
    ensures Reply(fd, "PING\n", rs, limits) == [Message(fd, PongReply)]
  {
    PingLineAccepted();
    ReplyAccepted(fd, "PING\n", Command(Ping, ""), rs, limits);
  }

  lemma PingLineAccepted()
    ensures Accepted("PING\n") == Some(Command(Ping, ""))
  {
    assert Truncate("PING\n", ReceiveSize - 1) == "PING\n";
    UpToNulClean("PING\n");
    assert Received("PING\n") == "PING\n";
    ParsePingLine();
  }

  lemma SearchAnswered(fd: int, query: string, rs: seq<Record>, limits: Limits)
    requires fd >= 0 && query != [] && Transmittable(Command(Search, query)) && |query| < 248 && '\0' !in query
    ensures Reply(fd, "SEARCH " + query, rs, limits) ==
      [Message(fd, ResultHeader(|Matching(rs, query)|)), Message(fd, SearchText(rs, query, SearchBufferSize).value)]
  {
    SearchLineAccepted(query);
    ReplyAccepted(fd, "SEARCH " + query, Command(Search, query), rs, limits);
  }

  lemma SearchLineAccepted(query: string)
    requires query != [] && Transmittable(Command(Search, query)) && |query| < 248 && '\0' !in query
    ensures Accepted("SEARCH " + query) == Some(Command(Search, query))
  {
    var c := Command(Search, query);
    assert Verb(Search) + " " == "SEARCH ";
    assert Render(c) == "SEARCH " + query;
    AcceptedRender(c);
  }

  /** A STORE that the table accepts is answered with the status of `bourne_storage_store`. */
  lemma DispatchStored(fd: int, payload: string, rs: seq<Record>, limits: Limits)
    requires limits.Valid() && StoreAccepts(payload, |rs|, limits)
    ensures Dispatch(fd, Command(Store, payload), rs, limits) ==
      [Message(fd, Truncate("STORED " + Truncate("Stored entry #" + NatToString(|rs| + 1), StatusSize - 1) + "\n", ResponseSize - 1))]
  {
    StoreMessageStored(payload, |rs|, limits, StatusSize);
  }

  /** A STORE line with a payload, for a table with room. */
  predicate StoreLine(payload: string, rs: seq<Record>, limits: Limits) {
    payload != [] && Transmittable(Command(Store, payload)) && |payload| < 249 && '\0' !in payload &&
    limits.Valid() && |rs| < limits.capacity
  }

  lemma StoreLineAccepted(payload: string)
    requires payload != [] && Transmittable(Command(Store, payload)) && |payload| < 249 && '\0' !in payload
    ensures Accepted("STORE " + payload) == Some(Command(Store, payload))
  {
    var c := Command(Store, payload);
    assert Verb(Store) + " " == "STORE ";
    assert Render(c) == "STORE " + payload;
    AcceptedRender(c);
  }

  lemma StoreAnswered(fd: int, payload: string, rs: seq<Record>, limits: Limits)
    requires fd >= 0 && StoreLine(payload, rs, limits)
    ensures Reply(fd, "STORE " + payload, rs, limits) ==
      [Message(fd, Truncate("STORED " + Truncate("Stored entry #" + NatToString(|rs| + 1), StatusSize - 1) + "\n", ResponseSize - 1))]
  {
    StoreLineAccepted(payload);
    ReplyAccepted(fd, "STORE " + payload, Command(Store, payload), rs, limits);
    DispatchStored(fd, payload, rs, limits);
  }

  lemma StoreAppends(fd: int, payload: string, rs: seq<Record>, limits: Limits)
    requires fd >= 0 && StoreLine(payload, rs, limits)
    ensures TableAfter(fd, "STORE " + payload, rs, limits) == rs + [StoredRecord(payload, |rs|, limits)]
  {
    StoreLineAccepted(payload);
  }

  // ---------------------------------------------------------------------------
  // The service state

  /** `BourneServiceState` (without its worker pool), with the record table it serves and the
      logs of what it has sent and which handles it has closed. */
  class ServiceState {
    var listenerFd: int
    var config: Config.ServerConfig
    var running: bool
    var sent: seq<Message>
    var closed: seq<int>
    const store: RecordStore

    ghost predicate Valid()
      reads this, store
    {
      store.Valid()
    }

    /** The handles closed by closing `fd`: none for a negative handle. */
    static function Closing(fd: int): seq<int> {
      if fd >= 0 then [fd] else []
    }

    constructor (store: RecordStore)
      requires store.Valid()
      ensures Valid() && this.store == store
      ensures listenerFd == -1 && !running && sent == [] && closed == []
    {
      this.store := store;
      listenerFd := -1;
      config := Config.ServerConfig(None, 0, 0, 0);
      running := false;
      sent := [];
      closed := [];
    }

    /** `bourne_network_close`: a negative handle is ignored. */
    method Close(fd: int)
      modifies this
      ensures closed == old(closed) + Closing(fd)
      ensures listenerFd == old(listenerFd) && running == old(running) && sent == old(sent) && config == old(config)
    {
      if fd >= 0 {
        closed := closed + [fd];
      }
    }

    /** `send` of a whole buffer. */
    method Send(fd: int, text: string)
      modifies this
      ensures sent == old(sent) + [Message(fd, text)]
      ensures listenerFd == old(listenerFd) && running == old(running) && closed == old(closed) && config == old(config)
    {
      sent := sent + [Message(fd, text)];
    }

    /** `bourne_prepare_config`: start from the defaults, then take each override that is set. */
    method PrepareConfig(overrides: Option<Config.ServerConfig>)
      modifies this
      ensures config == Prepared(overrides)
      ensures listenerFd == old(listenerFd) && running == old(running) && sent == old(sent) && closed == old(closed)
    {
      config := Config.UseDefaults();
      if overrides.Some? {
        var o := overrides.value;
        config := config.(bindAddress := if o.bindAddress.Some? then o.bindAddress else config.bindAddress);
        config := config.(port := if o.port != 0 then o.port else config.port);
        config := config.(backlog := if o.backlog != 0 then o.backlog else config.backlog);
        config := config.(maxWorkers := if o.maxWorkers != 0 then o.maxWorkers else config.maxWorkers);
      }
    }

    /** `bourne_service_init`, given the sample file's contents and what `bourne_network_listen`
        returned. A configuration that fails validation is refused before the table is touched; a
        listener failure shuts the table down again. */
    method Init(overrides: Option<Config.ServerConfig>, sampleFile: Option<string>, listenResult: int) returns (ok: bool)
      requires Valid()
      modifies this, store, store.records
      ensures Valid() && config == Prepared(overrides) && !running
      ensures sent == old(sent) && closed == old(closed)
      ensures ok == (Config.Validate(config) && listenResult >= 0)
      ensures !Config.Validate(config) ==> listenerFd == -1 && store.Contents() == old(store.Contents())
      ensures Config.Validate(config) ==> listenerFd == listenResult
      ensures Config.Validate(config) && listenResult < 0 ==> store.Contents() == []
      ensures ok ==> store.Contents() == InitialRecords(sampleFile, store.limits) && |store.Contents()| > 0
    {
      listenerFd := -1;
      running := false;
      PrepareConfig(overrides);
      if !Config.Validate(config) {
        return false;
      }
      var _ := store.Init(sampleFile);
      listenerFd := listenResult;
      if listenerFd < 0 {
        store.Shutdown();
        return false;
      }
      ok := true;
    }

    /** The listener handle after a stop request: released, or left as the negative value it was. */
    static function Released(fd: int): int {
      if fd >= 0 then -1 else fd
    }

    /** `bourne_service_request_stop`: the listener is closed at most once. */
    method RequestStop()
      modifies this
      ensures !running && listenerFd == Released(old(listenerFd)) < 0
      ensures closed == old(closed) + Closing(old(listenerFd))
      ensures sent == old(sent) && config == old(config)
    {
      running := false;
      if listenerFd >= 0 {
        Close(listenerFd);
        listenerFd := -1;
      }
    }

    /** `bourne_service_stop`: request the stop, close the (already released) listener handle and
        shut the table down. Whatever stopped before, no handle is closed twice. */
    method Stop()
      requires Valid()
      modifies this, store, store.records
      ensures Valid() && !running && listenerFd == Released(old(listenerFd)) < 0 && store.Contents() == []
      ensures closed == old(closed) + Closing(old(listenerFd))
      ensures sent == old(sent) && config == old(config)
    {
      RequestStop();
      Close(listenerFd);
      store.Shutdown();
    }

    /** The `switch` of `bourne_handle_client` for a command that parsed and validated. */
    method DispatchCommand(fd: int, c: Command)
      requires Valid() && c.kind != Invalid
      modifies this, store, store.records
      ensures Valid()
      ensures sent == old(sent) + Dispatch(fd, c, old(store.Contents()), store.limits)
      ensures store.Contents() ==
        if c.kind == Store && StoreAccepts(c.argument, old(|store.Contents()|), store.limits)
        then old(store.Contents()) + [StoredRecord(c.argument, old(|store.Contents()|), store.limits)]
        else old(store.Contents())
      ensures c.kind == Shutdown ==> !running && listenerFd == Released(old(listenerFd)) && closed == old(closed) + Closing(old(listenerFd))
      ensures c.kind != Shutdown ==> running == old(running) && listenerFd == old(listenerFd) && closed == old(closed)
      ensures config == old(config)
    {
      if c.kind == Ping {
        Send(fd, PongReply);
      } else if c.kind == Search {
        var matches, text := store.Search(c.argument, SearchBufferSize);
        Send(fd, ResultHeader(matches));
        Send(fd, text.value);
      } else if c.kind == Store {
        var stored, status := store.Store(c.argument, StatusSize);
        Send(fd, StoreReply(stored, status.GetOr("")));
      } else {
        Send(fd, ShutdownReply);
        RequestStop();
      }
    }

    /** `bourne_handle_client` for a client on handle `fd` that sent `data`: one receive of at
        most 255 bytes, then parse, validate and dispatch. */
    method HandleClient(fd: int, data: string)
      requires Valid()
      modifies this, store, store.records
      ensures Valid()
      ensures sent == old(sent) + Reply(fd, data, old(store.Contents()), store.limits)
      ensures store.Contents() == TableAfter(fd, data, old(store.Contents()), store.limits)
      ensures Stops(fd, data) ==> !running && listenerFd == Released(old(listenerFd)) && closed == old(closed) + Closing(old(listenerFd))
      ensures !Stops(fd, data) ==> running == old(running) && listenerFd == old(listenerFd) && closed == old(closed)
      ensures config == old(config)
    {
      if fd < 0 || data == [] {
        return;
      }
      var buffer := UpToNul(Truncate(data, ReceiveSize - 1));
      var parsed, command := ParseCommand(buffer);
      if !parsed || !Query.Validate(command) {
        Send(fd, InvalidReply);
        return;
      }
      assert Accepted(data) == Some(command);
      DispatchCommand(fd, command);
    }
  }

  /** Stopping again after a stop request closes nothing more: the released handle is negative and
      stays as it is. */
  lemma StopClosesOnce(fd: int)
    ensures ServiceState.Released(fd) < 0
    ensures ServiceState.Released(ServiceState.Released(fd)) == ServiceState.Released(fd)
    ensures ServiceState.Closing(fd) + ServiceState.Closing(ServiceState.Released(fd)) == ServiceState.Closing(fd)
  {
  }
}
