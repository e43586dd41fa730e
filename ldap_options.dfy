/** The option array given to a directory session when it is constructed.

    Keys from 0x7000 up are reserved for the application: four of them tune
    the session (busy retries, busy wait, bind identity, bind secret) and
    any other key in that range is ignored.  Every key below 0x7000 is handed
    to the transport's option setter, after the protocol version (3) which
    is always set first. */
module LdapOptions {
  import opened Php

  /** The transport's protocol-version option. */
  const LDAP_OPT_PROTOCOL_VERSION := 0x0011
  const PROTOCOL_VERSION := 3

  const PRIVATE_EXTENSION_BASE := 0x7000
  const OPT_MAX_BUSY_TRIES := 0x7001
  const OPT_BUSY_WAIT_TIME := 0x7002
  const OPT_AUTH_USER := 0x7003
  const OPT_AUTH_PASSWORD := 0x7004

  const DEFAULT_MAX_BUSY_TRIES := 10
  const DEFAULT_BUSY_WAIT_TIME := 1000

  /** What the constructor's option loop decides: the retry tuning, the bind
      credentials, and the calls made to the transport's option setter, in
      order. */
  datatype Config = Config(
    maxBusyTries: int,
    busyWaitTime: int,
    authDn: Value,
    authPassword: Value,
    setOptions: seq<(int, Value)>)

  /** The state before the first option: defaults, anonymous bind, and the
      protocol version already set. */
  const Initial := Config(DEFAULT_MAX_BUSY_TRIES, DEFAULT_BUSY_WAIT_TIME, Str(""), Str(""),
                          [(LDAP_OPT_PROTOCOL_VERSION, Int(PROTOCOL_VERSION))])

  /** A busy-retry budget: the integer value, with anything not positive
      clamped to 0. */
  function ClampTries(value: Value): (n: int)
    ensures n >= 0
    ensures n == if IntVal(value) > 0 then IntVal(value) else 0
  {
    var n := IntVal(value);
    if n <= 0 then 0 else n
  }

  /** A busy wait: the integer value, with anything not positive reset to
      the default. */
  function WaitTime(value: Value): (n: int)
    ensures n > 0
    ensures n == if IntVal(value) > 0 then IntVal(value) else DEFAULT_BUSY_WAIT_TIME
  {
    var n := IntVal(value);
    if n <= 0 then DEFAULT_BUSY_WAIT_TIME else n
  }

  /** One turn of the constructor's option loop. */
  function Apply(c: Config, option: int, value: Value): Config {
    if option >= PRIVATE_EXTENSION_BASE then
      if option == OPT_MAX_BUSY_TRIES then c.(maxBusyTries := ClampTries(value))
      else if option == OPT_BUSY_WAIT_TIME then c.(busyWaitTime := WaitTime(value))
      else if option == OPT_AUTH_USER then c.(authDn := value)
      else if option == OPT_AUTH_PASSWORD then c.(authPassword := value)
      else c
    else c.(setOptions := c.setOptions + [(option, value)])
  }

  /** The whole option loop, over the options in array order. */
  function Parse(options: seq<(int, Value)>): Config
    decreases |options|
  {
    if |options| == 0 then Initial
    else
      var last := options[|options| - 1];
      Apply(Parse(options[..|options| - 1]), last.0, last.1)
  }

  /** The options below the private range, in input order. */
  function Forwarded(options: seq<(int, Value)>): (r: seq<(int, Value)>)
    ensures forall p :: p in r ==> p in options && p.0 < PRIVATE_EXTENSION_BASE
    ensures forall i :: 0 <= i < |options| && options[i].0 < PRIVATE_EXTENSION_BASE ==> options[i] in r
    decreases |options|
  {
    if |options| == 0 then []
    else
      var n := |options| - 1;
      var init := Forwarded(options[..n]);
      assert forall i :: 0 <= i < n ==> options[..n][i] == options[i];
      if options[n].0 < PRIVATE_EXTENSION_BASE then init + [options[n]] else init
  }

  /** The transport receives the protocol version, then every option below
      0x7000 exactly once and in input order, and never a private one. */
  lemma {:induction false} ParseForwards(options: seq<(int, Value)>)
    ensures Parse(options).setOptions ==
      [(LDAP_OPT_PROTOCOL_VERSION, Int(PROTOCOL_VERSION))] + Forwarded(options)
    decreases |options|
  {
    if |options| > 0 {
      ParseForwards(options[..|options| - 1]);
    }
  }

  /** Each setting comes from the last option that names it, or keeps its
      default; the retry budget is never negative and the wait is always
      positive. */
  lemma {:induction false} ParseSettings(options: seq<(int, Value)>)
    ensures Parse(options).maxBusyTries ==
      match LastValue(options, OPT_MAX_BUSY_TRIES)
      case None => DEFAULT_MAX_BUSY_TRIES
      case Some(v) => ClampTries(v)
    ensures Parse(options).busyWaitTime ==
      match LastValue(options, OPT_BUSY_WAIT_TIME)
      case None => DEFAULT_BUSY_WAIT_TIME
      case Some(v) => WaitTime(v)
    ensures Parse(options).authDn ==
      match LastValue(options, OPT_AUTH_USER)
      case None => Str("")
      case Some(v) => v
    ensures Parse(options).authPassword ==
      match LastValue(options, OPT_AUTH_PASSWORD)
      case None => Str("")
      case Some(v) => v
    ensures Parse(options).maxBusyTries >= 0 && Parse(options).busyWaitTime > 0
    decreases |options|
  {
    if |options| > 0 {
      ParseSettings(options[..|options| - 1]);
    }
  }
}
