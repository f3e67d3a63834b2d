/** What executeCommand promises about the stream text, the shell invocation and
    the outcome of a run. */
module ExecutorProperties {
  import opened JavaLang
  import opened HostPlatform
  import opened CommandTranslator
  import opened TranslatorProperties
  import opened CommandExecutor

  // ---------------------------------------------------------------------
  // readStream

  /** Draining two readers one after the other gives the two texts one after the other. */
  lemma {:induction false} JoinedAppend(a: seq<string>, b: seq<string>, sep: string)
    ensures Joined(a + b, sep) == Joined(a, sep) + Joined(b, sep)
    decreases |b|
  {
    if b == [] {
      assert a + b == a;
    } else {
      var b' := b[..|b| - 1];
      assert (a + b)[..|a + b| - 1] == a + b';
      JoinedAppend(a, b', sep);
    }
  }

  /** readStream's text is String.join of the lines with the separator, plus one
      final separator; no lines give the empty string. */
  lemma {:induction false} JoinedIsJoinPlusSeparator(lines: seq<string>, sep: string)
    ensures lines == [] ==> Joined(lines, sep) == []
    ensures lines != [] ==> Joined(lines, sep) == Join(sep, lines) + sep
    decreases |lines|
  {
    if lines != [] {
      var rest := lines[1..];
      assert lines == [lines[0]] + rest;
      JoinedAppend([lines[0]], rest, sep);
      assert Joined([lines[0]], sep) == lines[0] + sep by {
        assert [lines[0]][..0] == [];
      }
      if rest != [] {
        JoinedIsJoinPlusSeparator(rest, sep);
      }
    }
  }

  function TotalLength(lines: seq<string>): nat {
    if lines == [] then 0 else TotalLength(lines[..|lines| - 1]) + |lines[|lines| - 1]|
  }

  /** One separator per line, and nothing else added. */
  lemma {:induction false} JoinedLength(lines: seq<string>, sep: string)
    ensures |Joined(lines, sep)| == TotalLength(lines) + |lines| * |sep|
    decreases |lines|
  {
    if lines != [] {
      JoinedLength(lines[..|lines| - 1], sep);
    }
  }

  // ---------------------------------------------------------------------
  // buildCommand

  /** The names a request may carry are their own upper case. */
  lemma UpperPlatformNames()
    ensures ToUpper(Windows) == Windows && ToUpper(Linux) == Linux
    ensures ToUpper(Mac) == Mac && ToUpper(Auto) == Auto
  {
  }

  /** For WINDOWS, LINUX and MAC the shell follows the named platform, whatever the
      host: a LINUX request runs /bin/sh even on a Windows host. */
  lemma NamedPlatformShell(p: string, osName: string)
    requires p in {Windows, Linux, Mac}
    ensures ShellPrefix(p, osName) == (if p == Windows then WindowsShell else UnixShell)
  {
    UpperPlatformNames();
  }

  /** For the platform values a valid request carries (null, AUTO, WINDOWS, LINUX,
      MAC), the shell and the translation agree: cmd is used exactly when the
      arguments were translated for Windows. */
  lemma ShellAgreesWithTranslation(requested: Option<string>, osName: string, os: string)
    requires requested in {None, Some(Auto), Some(Windows), Some(Linux), Some(Mac)}
    requires ResolvePlatform(requested, osName) == Some(os)
    ensures ShellPrefix(os, osName) == WindowsShell <==> IsWindows(Some(os)) == Ok(true)
  {
    UpperPlatformNames();
    WindowsPlatform();
    LinuxPlatform();
    MacPlatform();
    if os !in {Windows, Linux, Mac} {
      assert os == Auto && HostFamily(osName).None?;
      assert !Contains(ToLower(osName), "win");
      assert ShellPrefix(os, osName) == UnixShell;
      IsWindowsByName(os);
      assert ToLower(Auto) == "auto";
      MissingCharNotContained("auto", "win", 0);
    }
  }

  /** The executed command text is the three elements joined by single spaces. */
  lemma ExecutedCommandText(command: string, arguments: Option<string>, os: string, osName: string)
    ensures |Invocation(command, arguments, os, osName)| == 3
    ensures Join(" ", Invocation(command, arguments, os, osName))
         == (if ShellPrefix(os, osName) == WindowsShell then "cmd /c " else "/bin/sh -c ")
            + ShellArgument(command, arguments)
  {
    var inv := Invocation(command, arguments, os, osName);
    var arg := ShellArgument(command, arguments);
    assert inv[1..][1..] == [arg];
    assert Join(" ", inv[1..]) == inv[1] + " " + arg;
    if ShellPrefix(os, osName) == WindowsShell {
      assert inv[0] + " " + (inv[1] + " " + arg) == "cmd /c " + arg;
    } else {
      assert inv[0] + " " + (inv[1] + " " + arg) == "/bin/sh -c " + arg;
    }
  }

  // ---------------------------------------------------------------------
  // executeCommand

  /** A platform that resolves survives the translator's second resolution, so the
      translator does not throw. */
  lemma ResolvedTranslationSucceeds(request: CommandRequest, host: Host)
    requires ResolvePlatform(request.operatingSystem, host.osName).Some?
    ensures TranslateCommand(request.command, request.arguments,
                             ResolvePlatform(request.operatingSystem, host.osName), host.osName).Ok?
  {
    ResolveIdempotent(request.operatingSystem, host.osName);
  }

  /** A requested working directory that does not exist raises
      CommandExecutionException before any process is started, whatever the
      process would have done. */
  lemma MissingDirectoryRaisesBeforeStart(request: CommandRequest, process: Process, host: Host)
    requires ResolvePlatform(request.operatingSystem, host.osName).Some?
    requires DirectoryRequested(request) && !process.directoryUsable
    ensures ExecutionOf(request, process, host)
         == Execution(false, false, Raised(CommandExecutionException(MissingDirectoryMessage + request.workingDirectory.value)))
  {
    ResolvedTranslationSucceeds(request, host);
  }

  /** Without a platform (null, or AUTO on a host it cannot recognise, left null),
      no process starts and the caller gets the -1 response of a
      NullPointerException, even when the working directory is missing too. */
  lemma NullPlatformFault(request: CommandRequest, process: Process, host: Host)
    requires ResolvePlatform(request.operatingSystem, host.osName).None?
    ensures ExecutionOf(request, process, host)
         == Execution(false, false, Returned(FaultResponse(request, host, NullPointerException)))
  {
  }

  /** The checks before the process runs all passed. */
  predicate ReachesWait(request: CommandRequest, process: Process, host: Host) {
    ResolvePlatform(request.operatingSystem, host.osName).Some?
    && (!DirectoryRequested(request) || process.directoryUsable)
    && process.startFault.None? && process.readFault.None?
    && request.timeout.Some? && process.interrupted.None?
  }

  /** A process still running `timeout` seconds after both its streams reached
      their end is destroyed, and CommandExecutionException is thrown with the
      timeout in the message; no response is produced. */
  lemma TimeoutDestroysAndRaises(request: CommandRequest, process: Process, host: Host)
    requires ReachesWait(request, process, host) && !ExitsBeforeDeadline(process, request.timeout.value)
    ensures ExecutionOf(request, process, host)
         == Execution(true, true, Raised(CommandExecutionException(TimeoutMessage(request.timeout.value))))
  {
    ResolvedTranslationSucceeds(request, host);
  }

  /** The deadline is counted from the moment both streams are at their end, so a
      process that keeps its output open until it exits is never timed out,
      however long it runs and however short the timeout. */
  lemma OpenOutputNeverTimesOut(request: CommandRequest, process: Process, host: Host)
    requires ReachesWait(request, process, host) && process.exitsAt <= process.streamsClosedAt
    ensures var e := ExecutionOf(request, process, host);
      e.started && !e.destroyed && e.outcome.Returned? && e.outcome.response.exitCode == process.exitCode
  {
    ResolvedTranslationSucceeds(request, host);
  }

  /** A process that ends in time yields a response carrying its exit code, both
      drained streams, the shell command line and the directory it ran in. */
  lemma CompletedRun(request: CommandRequest, process: Process, host: Host)
    requires ReachesWait(request, process, host) && ExitsBeforeDeadline(process, request.timeout.value)
    ensures var e := ExecutionOf(request, process, host);
      var os := ResolvePlatform(request.operatingSystem, host.osName).value;
      var t := TranslateCommand(request.command, request.arguments, Some(os), host.osName).value;
      e.started && !e.destroyed && e.outcome.Returned?
      && e.outcome.response.exitCode == process.exitCode
      && e.outcome.response.output == Some(Joined(process.stdout, host.lineSeparator))
      && e.outcome.response.errorOutput == Some(Joined(process.stderr, host.lineSeparator))
      && e.outcome.response.executedCommand
         == (if ShellPrefix(os, host.osName) == WindowsShell then "cmd /c " else "/bin/sh -c ")
            + ShellArgument(t.command, t.arguments)
      && e.outcome.response.workingDirectory
         == Some(if DirectoryRequested(request) then process.absolutePath else host.userDir)
  {
    ResolvedTranslationSucceeds(request, host);
    var os := ResolvePlatform(request.operatingSystem, host.osName).value;
    var t := TranslateCommand(request.command, request.arguments, Some(os), host.osName).value;
    ExecutedCommandText(t.command, t.arguments, os, host.osName);
  }

  /** A request naming WINDOWS, LINUX or MAC runs under that platform's shell on
      any host: "cmd /c" for WINDOWS, "/bin/sh -c" for the other two. */
  lemma NamedPlatformCommandLine(request: CommandRequest, process: Process, host: Host)
    requires request.operatingSystem.Some? && request.operatingSystem.value in {Windows, Linux, Mac}
    requires ReachesWait(request, process, host) && ExitsBeforeDeadline(process, request.timeout.value)
    ensures var e := ExecutionOf(request, process, host);
      e.outcome.Returned?
      && StartsWith(e.outcome.response.executedCommand,
                    if request.operatingSystem.value == Windows then "cmd /c " else "/bin/sh -c ")
  {
    var p := request.operatingSystem.value;
    ConcreteIsNotAuto(p);
    CompletedRun(request, process, host);
    NamedPlatformShell(p, host.osName);
    var e := ExecutionOf(request, process, host);
    var c := e.outcome.response.executedCommand;
    var prefix := if p == Windows then "cmd /c " else "/bin/sh -c ";
    assert c[..|prefix|] == prefix;
  }

  /** Every response's status is SUCCESS exactly when its exit code is 0, and ERROR
      otherwise. */
  lemma StatusFollowsExitCode(request: CommandRequest, process: Process, host: Host)
    ensures var e := ExecutionOf(request, process, host);
      e.outcome.Returned? ==>
        (e.outcome.response.status == Success <==> e.outcome.response.exitCode == 0)
        && (e.outcome.response.status == Success || e.outcome.response.status == Error)
  {
  }

  /** Every response's message is the success text exactly when its exit code is 0. */
  lemma MessageFollowsExitCode(request: CommandRequest, process: Process, host: Host)
    ensures var e := ExecutionOf(request, process, host);
      e.outcome.Returned? ==>
        (e.outcome.response.message == SuccessMessage <==> e.outcome.response.exitCode == 0)
  {
    var e := ExecutionOf(request, process, host);
    if e.outcome.Returned? {
      var r := e.outcome.response;
      if r.output.None? {
        FaultResponses(request, process, host);
        assert r.message[0] == FaultMessage[0] != SuccessMessage[0];
      } else {
        CompletedMessage(r.exitCode);
      }
    }
  }

  /** A finished process's message is the success text exactly when it exited with 0. */
  lemma CompletedMessage(exitCode: int)
    ensures (if exitCode == 0 then SuccessMessage else ExitCodeMessage + IntToString(exitCode)) == SuccessMessage
            <==> exitCode == 0
  {
    if exitCode != 0 {
      var m := ExitCodeMessage + IntToString(exitCode);
      assert m[3] == 'c';
    }
  }

  /** The responses built by the catch block: ERROR, -1, the raw request command and
      the request's own working directory, no output, and the exception's message. */
  lemma FaultResponses(request: CommandRequest, process: Process, host: Host)
    ensures var e := ExecutionOf(request, process, host);
      e.outcome.Returned? && e.outcome.response.output.None? ==>
        e.outcome.response.status == Error && e.outcome.response.exitCode == -1
        && e.outcome.response.executedCommand == request.command
        && e.outcome.response.workingDirectory == request.workingDirectory
        && StartsWith(e.outcome.response.message, FaultMessage)
        && !e.destroyed
  {
    var e := ExecutionOf(request, process, host);
    if e.outcome.Returned? && e.outcome.response.output.None? {
      var m := e.outcome.response.message;
      assert m[..|FaultMessage|] == FaultMessage;
    }
  }

  /** Only CommandExecutionException escapes, for exactly two reasons: a missing
      working directory (nothing started) or a timeout (process destroyed). A
      process is destroyed only then. */
  lemma EscapingExceptions(request: CommandRequest, process: Process, host: Host)
    ensures var e := ExecutionOf(request, process, host);
      e.outcome.Raised? ==>
        e.outcome.exception.CommandExecutionException?
        && ((!e.started && DirectoryRequested(request) && !process.directoryUsable
             && e.outcome.exception.detail == MissingDirectoryMessage + request.workingDirectory.value)
            || (e.started && e.destroyed && request.timeout.Some? && !ExitsBeforeDeadline(process, request.timeout.value)
             && e.outcome.exception.detail == TimeoutMessage(request.timeout.value)))
    ensures var e := ExecutionOf(request, process, host);
      e.destroyed <==> e.started && e.outcome.Raised?
  {
  }

  /** A process is started only once the platform resolved, the working directory
      checked out and start() succeeded. */
  lemma StartedOnlyAfterChecks(request: CommandRequest, process: Process, host: Host)
    ensures ExecutionOf(request, process, host).started ==>
      ResolvePlatform(request.operatingSystem, host.osName).Some?
      && (!DirectoryRequested(request) || process.directoryUsable)
      && process.startFault.None?
  {
  }
}
