/**
 The dump producer: the connection parameters, the argument vector handed to
 mysqldump, the dump a run produces, and its conversion to text. The child
 process is a parameter: a function from the command that is launched to the
 exit status and the two byte streams it leaves behind.
 */
module DumpProducer {
  import opened Wrappers
  import opened Utf8

  /** Connection parameters of the database to dump. */
  datatype SqlConfig = SqlConfig(host: string, port: string, database: string, user: string, password: string)

  /** A `DateTime<Utc>`: whole seconds since the Unix epoch, and the nanoseconds into that second. */
  datatype Timestamp = Timestamp(epochSeconds: int, subsecNanos: nat)

  /** The captured output of one mysqldump run and the instant it was captured. */
  datatype SqlDump = SqlDump(timestamp: Timestamp, sql: seq<byte>) {

    /**
     The dump as text. Well-formed bytes are returned unchanged as text (the
     text's UTF-8 encoding is `sql` itself); any other input is an error, the
     case in which the program panics.
     */
    function ToStr(): (r: Result<string, Utf8Error>)
      ensures r.Ok? <==> WellFormed(sql)
      ensures r.Ok? ==> Encode(r.value) == sql
      ensures r.Err? ==> r.error.validUpTo < |sql|
    {
      DecodeSucceedsIffWellFormed(sql);
      Decode(sql)
    }
  }

  /** When the dump is not text, the error reports the longest well-formed prefix of its bytes. */
  lemma ToStrErrorValidUpTo(d: SqlDump)
    requires d.ToStr().Err?
    ensures WellFormed(d.sql[..d.ToStr().error.validUpTo])
    ensures forall j :: d.ToStr().error.validUpTo < j <= |d.sql| ==> !WellFormed(d.sql[..j])
  {
    DecodeErrorValidUpTo(d.sql);
  }

  /** The executable the dumper launches. */
  const MysqldumpPath := "/usr/bin/mysqldump"

  /** A program and its arguments, as `Command::new(..).args(..)` assembles them. */
  datatype Command = Command(program: string, args: seq<string>)

  /** A child's exit status: its exit code, or none when a signal ended it. */
  datatype ExitStatus = ExitStatus(code: Option<int>) {
    predicate Success() {
      code == Some(0)
    }
  }

  /** What `Command::output` returns once the child has exited. */
  datatype CommandOutput = CommandOutput(status: ExitStatus, stdout: seq<byte>, stderr: seq<byte>)

  /** The diagnostic printed after a failed run: the error stream as text, or why it is not text. */
  datatype Diagnostic = MysqldumpFailed(stderr: string) | StderrNotUtf8(error: Utf8Error)

  /** The dump a run produces, with the diagnostic it printed on the way, if any. */
  datatype ExecOutcome = ExecOutcome(dump: SqlDump, diagnostic: Option<Diagnostic>)

  /** The diagnostic for a failed run: the error stream as text when it is UTF-8. */
  function FailureDiagnostic(stderr: seq<byte>): (d: Diagnostic)
    ensures d.MysqldumpFailed? <==> WellFormed(stderr)
    ensures d.MysqldumpFailed? ==> Encode(d.stderr) == stderr
  {
    DecodeSucceedsIffWellFormed(stderr);
    match Decode(stderr)
    case Ok(err) => MysqldumpFailed(err)
    case Err(e) => StderrNotUtf8(e)
  }

  /** An argument `-X<value>`: its value when its flag letter is `flag`. */
  function AttachedValue(arg: string, flag: char): (v: Option<string>)
    ensures v.Some? <==> |arg| >= 2 && arg[..2] == ['-', flag]
    ensures v.Some? ==> arg == ['-', flag] + v.value
  {
    if |arg| >= 2 && arg[0] == '-' && arg[1] == flag then Some(arg[2..]) else None
  }

  /**
   Reads an argument vector back as flag/value pairs: the flags -h, -P, -u
   and -p with their values attached, in that order, then the database name
   as the one positional entry.
   */
  function ParseArgs(args: seq<string>): (c: Option<SqlConfig>)
    ensures c.Some? ==> |args| == 5 && args[4] == c.value.database
  {
    if |args| != 5 then None
    else
      match (AttachedValue(args[0], 'h'), AttachedValue(args[1], 'P'),
             AttachedValue(args[2], 'u'), AttachedValue(args[3], 'p'))
      case (Some(host), Some(port), Some(user), Some(password)) =>
        Some(SqlConfig(host, port, args[4], user, password))
      case _ => None
  }

  datatype Dumper = Dumper(config: SqlConfig) {

    /**
     The five arguments for mysqldump: each connection option glued to its
     value with no separator, then the database name bare. Read back as
     flag/value pairs, they give exactly the configured parameters.
     */
    function BuildArgs(): (args: seq<string>)
      ensures |args| == 5
      ensures ParseArgs(args) == Some(config)
      ensures args[4] == config.database
    {
      var host := "-h" + config.host;
      var port := "-P" + config.port;
      var user := "-u" + config.user;
      var pass := "-p" + config.password;
      var db := config.database;
      assert host[2..] == config.host && port[2..] == config.port;
      assert user[2..] == config.user && pass[2..] == config.password;
      [host, port, user, pass, db]
    }

    /**
     One run of mysqldump with the built arguments. Whatever the exit status,
     the dump is the captured standard output, unchanged, stamped with the
     instant `now` the run completed; a failed run only adds a diagnostic.
     */
    function Exec(mysqldump: Command -> CommandOutput, now: Timestamp): (r: ExecOutcome)
      ensures var out := mysqldump(Command(MysqldumpPath, BuildArgs()));
        && r.dump.sql == out.stdout
        && r.dump.timestamp == now
        && (r.diagnostic.None? <==> out.status.Success())
        && (r.diagnostic.Some? && r.diagnostic.value.MysqldumpFailed? ==>
              Encode(r.diagnostic.value.stderr) == out.stderr)
        && (r.diagnostic.Some? && r.diagnostic.value.StderrNotUtf8? ==> !WellFormed(out.stderr))
    {
      var out := mysqldump(Command(MysqldumpPath, BuildArgs()));
      var diagnostic := if out.status.Success() then None else Some(FailureDiagnostic(out.stderr));
      ExecOutcome(SqlDump(now, out.stdout), diagnostic)
    }
  }

  /** Different configurations give different argument vectors, so nothing is lost in building them. */
  lemma BuildArgsInjective(d1: Dumper, d2: Dumper)
    ensures d1.BuildArgs() == d2.BuildArgs() <==> d1.config == d2.config
  {
    assert ParseArgs(d1.BuildArgs()) == Some(d1.config);
    assert ParseArgs(d2.BuildArgs()) == Some(d2.config);
  }

  /** The dump never depends on the exit status: runs that agree on standard output produce the same dump, whatever their status and error stream. */
  lemma DumpIgnoresStatus(d: Dumper, run1: Command -> CommandOutput, run2: Command -> CommandOutput, now: Timestamp)
    requires var cmd := Command(MysqldumpPath, d.BuildArgs()); run1(cmd).stdout == run2(cmd).stdout
    ensures d.Exec(run1, now).dump == d.Exec(run2, now).dump
  {
  }
}
