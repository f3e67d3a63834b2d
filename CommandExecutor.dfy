/** CommandExecutorService without the operating system: the shell invocation it
    builds, how it drains a stream, and how executeCommand turns the outcome of
    the process into a response or an exception.

    The process is an oracle: a Process value says whether the requested working
    directory exists, whether starting, reading or waiting fails, what the two
    streams hold, when (in seconds from the start) both streams have been read to
    their end and when the process exits, and its exit code. The host's os.name,
    os.version, line separator and user.dir are a Host value. */
module CommandExecutor {
  import opened JavaLang
  import opened HostPlatform
  import opened CommandTranslator

  // ---------------------------------------------------------------------
  // Data

  /** The fields of a CommandRequest the service reads; absent ones are null. */
  datatype CommandRequest = CommandRequest(
    command: string,
    arguments: Option<string>,
    workingDirectory: Option<string>,
    timeout: Option<int>,
    operatingSystem: Option<string>)

  /** The system properties the service reads. */
  datatype Host = Host(osName: string, osVersion: string, lineSeparator: string, userDir: string)

  /** What the started process (and the file system) will do. */
  datatype Process = Process(
    directoryUsable: bool,         // the working directory exists and is a directory
    absolutePath: string,          // its absolute path
    startFault: Option<string>,    // ProcessBuilder.start() throws IOException
    readFault: Option<string>,     // reading a stream throws IOException
    stdout: seq<string>,           // the lines of standard output
    stderr: seq<string>,           // the lines of standard error
    interrupted: Option<string>,   // waitFor throws InterruptedException
    streamsClosedAt: nat,          // second (from start) at which both streams are at end-of-stream
    exitsAt: nat,                  // second (from start) at which the process exits
    exitCode: int)

  /** waitFor(timeout, SECONDS) as executeCommand calls it: only after readStream has
      drained both streams to their end. It reports true when the process exits
      within `timeout` seconds of that moment, at once when it already has; a
      timeout that is not positive does not wait at all. */
  predicate ExitsBeforeDeadline(process: Process, timeout: int) {
    process.exitsAt <= process.streamsClosedAt + (if timeout > 0 then timeout else 0)
  }

  /** The fields of the CommandResponse the service fills (timing fields left out). */
  datatype CommandResponse = CommandResponse(
    status: string,
    exitCode: int,
    output: Option<string>,
    errorOutput: Option<string>,
    executedCommand: string,
    operatingSystem: string,
    message: string,
    workingDirectory: Option<string>)

  /** executeCommand either returns a response or lets an exception escape. */
  datatype Outcome = Returned(response: CommandResponse) | Raised(exception: Exception)

  /** An outcome, and whether a process was started and whether it was killed. */
  datatype Execution = Execution(started: bool, destroyed: bool, outcome: Outcome)

  const Success := "SUCCESS"
  const Error := "ERROR"
  const SuccessMessage := "Comando ejecutado exitosamente"
  const ExitCodeMessage := "El comando terminó con código de error "
  const MissingDirectoryMessage := "El directorio de trabajo no existe: "
  const FaultMessage := "Error al ejecutar comando: "

  const WindowsShell: seq<string> := ["cmd", "/c"]
  const UnixShell: seq<string> := ["/bin/sh", "-c"]

  // ---------------------------------------------------------------------
  // buildCommand

  /** The shell the switch on operatingSystem.toUpperCase() picks: the named
      platform decides for WINDOWS, LINUX and MAC, and the host only otherwise. */
  function ShellPrefix(os: string, osName: string): (r: seq<string>)
    ensures r == WindowsShell || r == UnixShell
  {
    var upper := ToUpper(os);
    if upper == Windows then WindowsShell
    else if upper == Linux || upper == Mac then UnixShell
    else if Contains(ToLower(osName), "win") then WindowsShell
    else UnixShell
  }

  /** The command line handed to the shell: the arguments follow one space when
      they are neither null nor empty (blank ones included). */
  function ShellArgument(command: string, arguments: Option<string>): (r: string)
    ensures StartsWith(r, command)
    ensures r == command <==> arguments.None? || arguments.value == []
  {
    if arguments.Some? && arguments.value != [] then command + " " + arguments.value else command
  }

  /** The list buildCommand returns. */
  function Invocation(command: string, arguments: Option<string>, os: string, osName: string): seq<string> {
    ShellPrefix(os, osName) + [ShellArgument(command, arguments)]
  }

  /** buildCommand(command, arguments, operatingSystem): appends the shell, its
      flag and the command line to a fresh list; a null platform makes
      toUpperCase() throw. */
  method BuildCommand(command: string, arguments: Option<string>, os: Option<string>, osName: string)
    returns (r: Result<seq<string>>)
    ensures os.None? ==> r == Threw(NullPointerException)
    ensures os.Some? ==> r == Ok(Invocation(command, arguments, os.value, osName))
  {
    if os.None? {
      return Threw(NullPointerException);
    }
    var list: seq<string> := [];
    var upper := ToUpper(os.value);
    if upper == Windows {
      list := list + ["cmd"];
      list := list + ["/c"];
    } else if upper == Linux || upper == Mac {
      list := list + ["/bin/sh"];
      list := list + ["-c"];
    } else if Contains(ToLower(osName), "win") {
      list := list + ["cmd"];
      list := list + ["/c"];
    } else {
      list := list + ["/bin/sh"];
      list := list + ["-c"];
    }
    assert list == ShellPrefix(os.value, osName);
    if arguments.Some? && arguments.value != [] {
      list := list + [command + " " + arguments.value];
    } else {
      list := list + [command];
    }
    return Ok(list);
  }

  // ---------------------------------------------------------------------
  // readStream

  /** Every line followed by the separator, in order. */
  function Joined(lines: seq<string>, sep: string): string {
    if lines == [] then [] else Joined(lines[..|lines| - 1], sep) + lines[|lines| - 1] + sep
  }

  /** readStream(reader) over a reader that yields `lines` and then null. */
  method ReadStream(lines: seq<string>, sep: string) returns (output: string)
    ensures output == Joined(lines, sep)
  {
    output := [];
    var i := 0;
    while i < |lines|
      invariant 0 <= i <= |lines|
      invariant output == Joined(lines[..i], sep)
    {
      assert lines[..i + 1][..i] == lines[..i];
      output := output + lines[i] + sep;
      i := i + 1;
    }
    assert lines[..i] == lines;
  }

  // ---------------------------------------------------------------------
  // executeCommand

  /** os.name + " " + os.version */
  function HostDescription(host: Host): string {
    host.osName + " " + host.osVersion
  }

  /** A non-empty working directory was requested. */
  predicate DirectoryRequested(request: CommandRequest) {
    request.workingDirectory.Some? && request.workingDirectory.value != []
  }

  function TimeoutMessage(seconds: int): string {
    "El comando excedió el tiempo de espera de " + IntToString(seconds) + " segundos"
  }

  /** The response the catch (Exception e) block builds. */
  function FaultResponse(request: CommandRequest, host: Host, e: Exception): CommandResponse {
    CommandResponse(Error, -1, None, None, request.command, HostDescription(host),
                    FaultMessage + MessageOf(e), request.workingDirectory)
  }

  /** The response of a process that ended by itself. */
  function CompletedResponse(exitCode: int, output: string, errorOutput: string, command: seq<string>,
                             host: Host, workingDirectory: string): CommandResponse
  {
    CommandResponse(
      if exitCode == 0 then Success else Error,
      exitCode, Some(output), Some(errorOutput), Join(" ", command), HostDescription(host),
      if exitCode == 0 then SuccessMessage else ExitCodeMessage + IntToString(exitCode),
      Some(workingDirectory))
  }

  /** What executeCommand(request) does with this process on this host, step by
      step in the order of the source. */
  function ExecutionOf(request: CommandRequest, process: Process, host: Host): (e: Execution)
    ensures e.destroyed ==> e.started
    ensures e.outcome.Raised? ==> e.outcome.exception.CommandExecutionException?
  {
    var os := ResolvePlatform(request.operatingSystem, host.osName);
    match TranslateCommand(request.command, request.arguments, os, host.osName)
    case Threw(e) => Execution(false, false, Returned(FaultResponse(request, host, e)))
    case Ok(t) =>
      if os.None? then
        Execution(false, false, Returned(FaultResponse(request, host, NullPointerException)))
      else
        var command := Invocation(t.command, t.arguments, os.value, host.osName);
        if DirectoryRequested(request) && !process.directoryUsable then
          Execution(false, false, Raised(CommandExecutionException(MissingDirectoryMessage + request.workingDirectory.value)))
        else if process.startFault.Some? then
          Execution(false, false, Returned(FaultResponse(request, host, IOException(process.startFault.value))))
        else if process.readFault.Some? then
          Execution(true, false, Returned(FaultResponse(request, host, IOException(process.readFault.value))))
        else if request.timeout.None? then
          Execution(true, false, Returned(FaultResponse(request, host, NullPointerException)))
        else if process.interrupted.Some? then
          Execution(true, false, Returned(FaultResponse(request, host, InterruptedException(process.interrupted.value))))
        else if !ExitsBeforeDeadline(process, request.timeout.value) then
          Execution(true, true, Raised(CommandExecutionException(TimeoutMessage(request.timeout.value))))
        else
          var directory := if DirectoryRequested(request) then process.absolutePath else host.userDir;
          Execution(true, false, Returned(CompletedResponse(
            process.exitCode, Joined(process.stdout, host.lineSeparator), Joined(process.stderr, host.lineSeparator),
            command, host, directory)))
  }

  /** executeCommand(request) */
  method ExecuteCommand(request: CommandRequest, process: Process, host: Host) returns (e: Execution)
    ensures e == ExecutionOf(request, process, host)
  {
    var os := ResolvePlatform(request.operatingSystem, host.osName);
    var translation := TranslateCommand(request.command, request.arguments, os, host.osName);
    if translation.Threw? {
      return Execution(false, false, Returned(FaultResponse(request, host, translation.exception)));
    }
    var built := BuildCommand(translation.value.command, translation.value.arguments, os, host.osName);
    if built.Threw? {
      return Execution(false, false, Returned(FaultResponse(request, host, built.exception)));
    }
    var command := built.value;
    var directory: Option<string> := None;
    if DirectoryRequested(request) {
      if !process.directoryUsable {
        return Execution(false, false, Raised(CommandExecutionException(MissingDirectoryMessage + request.workingDirectory.value)));
      }
      directory := Some(process.absolutePath);
    }
    if process.startFault.Some? {
      return Execution(false, false, Returned(FaultResponse(request, host, IOException(process.startFault.value))));
    }
    if process.readFault.Some? {
      return Execution(true, false, Returned(FaultResponse(request, host, IOException(process.readFault.value))));
    }
    var output := ReadStream(process.stdout, host.lineSeparator);
    var errorOutput := ReadStream(process.stderr, host.lineSeparator);
    if request.timeout.None? {
      return Execution(true, false, Returned(FaultResponse(request, host, NullPointerException)));
    }
    if process.interrupted.Some? {
      return Execution(true, false, Returned(FaultResponse(request, host, InterruptedException(process.interrupted.value))));
    }
    if !ExitsBeforeDeadline(process, request.timeout.value) {
      return Execution(true, true, Raised(CommandExecutionException(TimeoutMessage(request.timeout.value))));
    }
    var exitCode := process.exitCode;
    var response := CommandResponse(
      if exitCode == 0 then Success else Error,
      exitCode, Some(output), Some(errorOutput), Join(" ", command), HostDescription(host),
      if exitCode == 0 then SuccessMessage else ExitCodeMessage + IntToString(exitCode),
      Some(if directory.Some? then directory.value else host.userDir));
    return Execution(true, false, Returned(response));
  }
}
