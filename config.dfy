/** Server configuration (bourne/src/config.c): the project defaults and the
    checks a configuration must pass before the service binds its listener. */
module Config {
  import opened Text

  /** Fixed-width integer types of `BourneServerConfig`. */
  newtype uint16 = x: int | 0 <= x < 0x1_0000
  newtype int32 = x: int | -0x8000_0000 <= x < 0x8000_0000
  newtype uint64 = x: int | 0 <= x < 0x1_0000_0000_0000_0000

  const UShrtMax := 0xFFFF

  /** `BourneServerConfig`; a null `bind_address` is `None`. */
  datatype ServerConfig = ServerConfig(bindAddress: Option<string>, port: uint16, backlog: int32, maxWorkers: uint64)

  /** `bourne_config_use_defaults`: every field is overwritten with the project default. */
  function UseDefaults(): (c: ServerConfig)
    ensures c.bindAddress == Some("127.0.0.1")
    ensures c.port == 5555 && c.backlog == 8 && c.maxWorkers == 4
  {
    ServerConfig(Some("127.0.0.1"), 5555, 8, 4)
  }

  /** `bourne_config_validate`: the chain of checks, including the upper port bound that a
      16-bit port can never exceed. */
  function Validate(c: ServerConfig): (ok: bool)
    ensures ok <==> c.bindAddress.Some? && c.bindAddress.value != [] && c.port != 0 && c.backlog > 0 && c.maxWorkers != 0
  {
    if c.bindAddress.None? || c.bindAddress.value == [] then false
    else if c.port == 0 || c.port as int > UShrtMax then false
    else if c.backlog <= 0 then false
    else if c.maxWorkers == 0 then false
    else true
  }

  /** The `> USHRT_MAX` test never fires: rejecting a port is the same as the port being 0. */
  lemma PortBoundUnreachable(c: ServerConfig)
    requires c.bindAddress.Some? && c.bindAddress.value != [] && c.backlog > 0 && c.maxWorkers != 0
    ensures !Validate(c) <==> c.port == 0
  {
  }

  /** The defaults pass validation. */
  lemma DefaultsValid()
    ensures Validate(UseDefaults())
  {
  }

  /** Each check on its own rejects a configuration that is valid otherwise. */
  lemma ValidateRejects(c: ServerConfig)
    requires Validate(c)
    ensures !Validate(c.(bindAddress := None)) && !Validate(c.(bindAddress := Some("")))
    ensures !Validate(c.(port := 0)) && !Validate(c.(maxWorkers := 0))
    ensures forall b: int32 :: b <= 0 ==> !Validate(c.(backlog := b))
  {
  }
}
