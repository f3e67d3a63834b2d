/** The command translator: rewrites a (command, arguments) pair written for one
    platform into the form the target platform expects.

    Dispatch is on the lower-cased command name over ten command families. A
    family's helper picks the target's command name (ping keeps the name it was
    given) and rewrites the arguments, either by a chain of replaceAll calls or by
    replacing them wholesale with one fixed flag. */
module CommandTranslator {
  import opened JavaLang
  import opened JavaRegex
  import opened HostPlatform

  /** CommandTranslator.CommandTranslation: the translated name and arguments. */
  datatype CommandTranslation = CommandTranslation(command: string, arguments: Option<string>)

  /** The ten families of the dispatch switch, each a Unix/Windows pair of names. */
  datatype Family = Ping | List | Process | Network | Search | ReadFile | Delete | Copy | Move | Clear

  /** The family a lower-cased command name belongs to: the one family whose Unix
      or Windows name it is, and none when it is neither for any family. */
  function FamilyOf(name: string): (f: Option<Family>)
    ensures f.Some? ==> name == UnixName(f.value) || name == WindowsName(f.value)
    ensures forall g :: name == UnixName(g) || name == WindowsName(g) ==> f == Some(g)
  {
    if name == "ping" then Some(Ping)
    else if name == "ls" || name == "dir" then Some(List)
    else if name == "ps" || name == "tasklist" then Some(Process)
    else if name == "ifconfig" || name == "ipconfig" then Some(Network)
    else if name == "grep" || name == "findstr" then Some(Search)
    else if name == "cat" || name == "type" then Some(ReadFile)
    else if name == "rm" || name == "del" then Some(Delete)
    else if name == "cp" || name == "copy" then Some(Copy)
    else if name == "mv" || name == "move" then Some(Move)
    else if name == "clear" || name == "cls" then Some(Clear)
    else None
  }

  /** The name a helper gives the command when the target is not Windows. */
  function UnixName(f: Family): string {
    match f
    case Ping => "ping"
    case List => "ls"
    case Process => "ps"
    case Network => "ifconfig"
    case Search => "grep"
    case ReadFile => "cat"
    case Delete => "rm"
    case Copy => "cp"
    case Move => "mv"
    case Clear => "clear"
  }

  /** The name a helper gives the command when the target is Windows. */
  function WindowsName(f: Family): string {
    match f
    case Ping => "ping"
    case List => "dir"
    case Process => "tasklist"
    case Network => "ipconfig"
    case Search => "findstr"
    case ReadFile => "type"
    case Delete => "del"
    case Copy => "copy"
    case Move => "move"
    case Clear => "cls"
  }

  function TargetName(f: Family, toWindows: bool): string {
    if toWindows then WindowsName(f) else UnixName(f)
  }

  /** isWindows(os): "WINDOWS" in any case, or any name containing "win" in any
      case; a null platform makes os.toLowerCase() throw. */
  function IsWindows(os: Option<string>): (r: Result<bool>)
    ensures r.Threw? <==> os.None?
    ensures r.Threw? ==> r.exception == NullPointerException
  {
    match os
    case None => Threw(NullPointerException)
    case Some(s) => Ok(EqualsIgnoreCase(Windows, s) || Contains(ToLower(s), "win"))
  }

  // ---------------------------------------------------------------------
  // The ten helpers. Each receives arguments that are neither null nor blank.

  /** One replaceAll of ping's: the pattern "flag\\s+(\\d+)" and its replacement. */
  function FlagPass(a: string, flag: string, r: Replacement): string
    requires flag != []
  {
    ReplaceAll(a, FlagNumber(flag), r)
  }

  /** ping toward Windows: "-c N" to "-n N", "-i N" to "-w N000", "-s N" to "-l N". */
  function PingToWindows(a: string): string {
    FlagPass(FlagPass(FlagPass(a, "-c", Replacement("-n ", "")), "-i", Replacement("-w ", "000")), "-s", Replacement("-l ", ""))
  }

  /** ping toward Unix: "-n N" to "-c N", "-w N" to "-W N", "-l N" to "-s N", "-t" kept. */
  function PingToUnix(a: string): string {
    var a3 := FlagPass(FlagPass(FlagPass(a, "-n", Replacement("-c ", "")), "-w", Replacement("-W ", "")), "-l", Replacement("-s ", ""));
    ReplaceAll(a3, Literal("-t"), Fixed("-t"))
  }

  /** ls/dir toward Windows: "-l" or "-la" to "/a", "-R" to "/s", "-h" dropped. */
  function ListToWindows(a: string): string {
    var a1 := ReplaceAll(a, OptionalLast("-l", 'a'), Fixed("/a"));
    var a2 := ReplaceAll(a1, Literal("-R"), Fixed("/s"));
    ReplaceAll(a2, Literal("-h"), Fixed(""))
  }

  /** ls/dir toward Unix: "/a" to "-la", "/s" to "-R", "/b" to "-1". */
  function ListToUnix(a: string): string {
    var a1 := ReplaceAll(a, Literal("/a"), Fixed("-la"));
    var a2 := ReplaceAll(a1, Literal("/s"), Fixed("-R"));
    ReplaceAll(a2, Literal("/b"), Fixed("-1"))
  }

  /** ps/tasklist: "-e" or "aux" anywhere makes the arguments "/v" (Windows);
      "/v" anywhere makes them "aux" (Unix). */
  function ProcessArguments(a: string, toWindows: bool): string {
    if toWindows then
      if Contains(a, "-e") || Contains(a, "aux") then "/v" else a
    else
      if Contains(a, "/v") then "aux" else a
  }

  /** ifconfig/ipconfig: "-a" anywhere makes the arguments "/all" (Windows);
      "/all" anywhere makes them "-a" (Unix). */
  function NetworkArguments(a: string, toWindows: bool): string {
    if toWindows then
      if Contains(a, "-a") then "/all" else a
    else
      if Contains(a, "/all") then "-a" else a
  }

  /** grep/findstr: "-i", "-r", "-n" to "/i", "/s", "/n", and back. */
  function SearchArguments(a: string, toWindows: bool): string {
    if toWindows then
      var a1 := ReplaceAll(a, Literal("-i"), Fixed("/i"));
      var a2 := ReplaceAll(a1, Literal("-r"), Fixed("/s"));
      ReplaceAll(a2, Literal("-n"), Fixed("/n"))
    else
      var a1 := ReplaceAll(a, Literal("/i"), Fixed("-i"));
      var a2 := ReplaceAll(a1, Literal("/s"), Fixed("-r"));
      ReplaceAll(a2, Literal("/n"), Fixed("-n"))
  }

  /** rm/del: "-r", "-f" to "/s", "/f", and back. */
  function DeleteArguments(a: string, toWindows: bool): string {
    if toWindows then
      ReplaceAll(ReplaceAll(a, Literal("-r"), Fixed("/s")), Literal("-f"), Fixed("/f"))
    else
      ReplaceAll(ReplaceAll(a, Literal("/s"), Fixed("-r")), Literal("/f"), Fixed("-f"))
  }

  /** cp/copy: "-r" to "/s", and back. */
  function CopyArguments(a: string, toWindows: bool): string {
    if toWindows then ReplaceAll(a, Literal("-r"), Fixed("/s"))
    else ReplaceAll(a, Literal("/s"), Fixed("-r"))
  }

  /** The arguments a family's helper produces. cat/type and mv/move keep them;
      clear/cls drops them. */
  function FamilyArguments(f: Family, a: string, toWindows: bool): string {
    match f
    case Ping => if toWindows then PingToWindows(a) else PingToUnix(a)
    case List => if toWindows then ListToWindows(a) else ListToUnix(a)
    case Process => ProcessArguments(a, toWindows)
    case Network => NetworkArguments(a, toWindows)
    case Search => SearchArguments(a, toWindows)
    case ReadFile => a
    case Delete => DeleteArguments(a, toWindows)
    case Copy => CopyArguments(a, toWindows)
    case Move => a
    case Clear => ""
  }

  /** translate<Family>Command(command, arguments, os) once isWindows(os) is known:
      ping keeps the name it was given, every other family takes the target's name. */
  function TranslateFamily(f: Family, command: string, a: string, toWindows: bool): CommandTranslation {
    var name := if f == Ping then command else TargetName(f, toWindows);
    CommandTranslation(name, Some(FamilyArguments(f, a, toWindows)))
  }

  /** translateCommand(command, arguments, targetOS) on a host whose os.name is osName.
      Arguments that are null or blank, and names outside the ten families, pass
      through unchanged; otherwise the helper calls isWindows on the resolved
      platform, which throws when that platform is null. */
  function TranslateCommand(command: string, arguments: Option<string>, targetOS: Option<string>, osName: string)
    : (r: Result<CommandTranslation>)
    ensures arguments.None? || IsBlank(arguments.value) ==> r == Ok(CommandTranslation(command, arguments))
    ensures FamilyOf(ToLower(command)).None? ==> r == Ok(CommandTranslation(command, arguments))
    ensures r.Threw? <==> arguments.Some? && !IsBlank(arguments.value)
                          && FamilyOf(ToLower(command)).Some? && ResolvePlatform(targetOS, osName).None?
    ensures r.Threw? ==> r.exception == NullPointerException
  {
    var os := ResolvePlatform(targetOS, osName);
    if arguments.None? || IsBlank(arguments.value) then
      Ok(CommandTranslation(command, arguments))
    else
      match FamilyOf(ToLower(command))
      case None => Ok(CommandTranslation(command, arguments))
      case Some(f) =>
        match IsWindows(os)
        case Threw(e) => Threw(e)
        case Ok(w) => Ok(TranslateFamily(f, command, arguments.value, w))
  }
}
