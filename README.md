# Remote command execution: translator and executor model

This project models the two service classes of a Spring REST API that runs operating-system commands on request, and proves properties of the model in Dafny.

- `CommandTranslator` rewrites a command name and its argument string from Windows conventions to Unix conventions, or back. Ten command families are covered: ping, ls/dir, ps/tasklist, ifconfig/ipconfig, grep/findstr, cat/type, rm/del, cp/copy, mv/move and clear/cls. It also holds an 18-entry table of equivalent names.
- `CommandExecutorService` resolves the target platform, builds the three-element shell invocation, drains the process's output streams, and turns the outcome into a `CommandResponse` or a `CommandExecutionException`.

Modules:

- `JavaLang`: the parts of `java.lang` the code relies on:
  - null as `Option`, and the exceptions involved;
  - ASCII `toLowerCase`/`toUpperCase`/`equalsIgnoreCase`;
  - `trim().isEmpty()`, `contains`, `Integer.toString` and `String.join`.
- `JavaRegex`: `String.replaceAll` for the three kinds of pattern the translator uses:
  - a literal;
  - `-la?`, which is greedy;
  - `flag\s+(\d+)`, with the replacement `before$1after`.

  Java scans from the left, replaces the leftmost match, resumes after it, and never looks at replaced text again; the model does the same.
- `HostPlatform`: `detectOperatingSystem` and `detectActualOS`. The two are identical, so one function models both. The host's `os.name` is a parameter.
- `CommandTranslator`: `translateCommand`, the ten helpers, `isWindows` and `CommandTranslation`.
- `CommandEquivalences`: `getCommandEquivalencies`, as its two halves of nine puts, and the proof that the table is an involution.
- `TranslatorProperties`: lemmas about what each family does to its arguments:
  - the round trips that hold and the ones that do not;
  - the equivalence table against the families;
  - dispatch.
- `CommandExecutor`: `buildCommand` and `readStream` as methods with loops or step-by-step appends, each proved against a function that states what they compute. `ExecutionOf` is the decision logic of `executeCommand` in source order, and `ExecuteCommand` is the imperative method, proved equal to it.
  - The process is an oracle value. It says whether the working directory exists, whether `start()`, a read or `waitFor` throws, what the two streams hold, whether the process ends within the timeout, and its exit code.
  - `os.name`, `os.version`, `line.separator` and `user.dir` form a `Host` value.
- `ExecutorProperties`: lemmas about the shell invocation, the drained text, and the classification of outcomes.

Three behaviours of the code shape the model:

- Shell choice. `buildCommand` switches on the upper-cased platform string first (CommandExecutorService.java:135-144). WINDOWS gets `cmd /c`, and LINUX or MAC get `/bin/sh -c`, on any host. Only other values fall back to the host name. `ExecutorProperties.NamedPlatformShell` and `ExecutorProperties.NamedPlatformCommandLine` state this.
- AUTO on an unknown host. `detectOperatingSystem` returns the request unchanged when the host name contains none of win, mac, nix, nux or aix (`HostPlatform.UnknownHostName`).
  - A null platform stays null on such a host. `isWindows` or `buildCommand`'s `toUpperCase()` then throws `NullPointerException`, and the response is the -1 ERROR response (`ExecutorProperties.NullPlatformFault`).
- Timeout. When `waitFor` reports that the process is still running, the code destroys it and throws `CommandExecutionException`; no response is produced (`ExecutorProperties.TimeoutDestroysAndRaises`). `waitFor` is only called after `readStream` has read both streams to their end (CommandExecutorService.java:69-73), so the deadline starts then, not when the process starts. A process that keeps its output open until it exits is never timed out, however long it runs (`ExecutorProperties.OpenOutputNeverTimesOut`). The process oracle therefore carries two times: when both streams are at their end, and when the process exits.

## Model

Source paths are relative to the repository root.

| member | source | states |
|---|---|---|
| JavaLang.ToLower | src/main/java/app/sencico/edu/pe/gematica/service/CommandTranslator.java:33 | `toLowerCase()` keeps the length, leaves no capital letter, and keeps every position's upper case: a capital becomes the small letter it is the capital of, and every other character is kept |
| JavaLang.ToUpper | src/main/java/app/sencico/edu/pe/gematica/service/CommandExecutorService.java:135 | `toUpperCase()` keeps the length, leaves no small letter, and keeps every position's lower case: a small letter becomes its capital, and every other character is kept |
| JavaLang.CaseMappingsAgree | src/main/java/app/sencico/edu/pe/gematica/service/CommandTranslator.java:243 | lower-casing forgets an earlier upper-casing and the other way round, and each mapping is idempotent, so `equalsIgnoreCase` can compare lower-cased texts |
| JavaLang.Contains | src/main/java/app/sencico/edu/pe/gematica/service/CommandTranslator.java:120 | `contains` is true exactly when the text occurs at some position |
| JavaLang.IsBlank | src/main/java/app/sencico/edu/pe/gematica/service/CommandTranslator.java:28 | `trim().isEmpty()` holds exactly when no character is above U+0020 (used by TranslateCommand's contract) |
| JavaLang.MissingCharNotContained | src/main/java/app/sencico/edu/pe/gematica/service/CommandTranslator.java:259 | a string lacking one of t's characters does not contain t |
| JavaLang.NatToString | src/main/java/app/sencico/edu/pe/gematica/service/CommandExecutorService.java:96 | the decimal text of a number is non-empty and made only of digits, with no leading zero |
| JavaLang.NatToStringDenotes | src/main/java/app/sencico/edu/pe/gematica/service/CommandExecutorService.java:96 | those digits denote the number |
| JavaLang.IntToStringDenotes | src/main/java/app/sencico/edu/pe/gematica/service/CommandExecutorService.java:96 | `Integer.toString` of the exit code writes '-' exactly for negatives, then digits denoting the magnitude, so the message names the exit code itself |
| JavaRegex.RunEnd | src/main/java/app/sencico/edu/pe/gematica/service/CommandTranslator.java:74 | a greedy `\s+` or `\d+` run ends inside the text, at the first character outside the class |
| JavaRegex.RunEndAt | src/main/java/app/sencico/edu/pe/gematica/service/CommandTranslator.java:74 | the run from i ends exactly at j when every character before j is in the class and the one at j is not |
| JavaRegex.MatchAt | src/main/java/app/sencico/edu/pe/gematica/service/CommandTranslator.java:99-100 | a match begins with the pattern's literal head and is at least that long; only the flag-number pattern captures a group |
| JavaRegex.MatchOptionalLast | src/main/java/app/sencico/edu/pe/gematica/service/CommandTranslator.java:99 | `-la?` matches only text starting with `-l`, taking `a` too when it follows |
| JavaRegex.MatchFlagNumber | src/main/java/app/sencico/edu/pe/gematica/service/CommandTranslator.java:74 | a `flag\s+(\d+)` match begins with the flag and is strictly longer than it |
| JavaRegex.ReplaceAll | src/main/java/app/sencico/edu/pe/gematica/service/CommandTranslator.java:74-107 | `String.replaceAll` as a left-to-right scan that replaces each leftmost match and resumes after it; what it does is stated by the lemmas below |
| JavaRegex.ReplaceAllPrefix | src/main/java/app/sencico/edu/pe/gematica/service/CommandTranslator.java:99-107 | text without the pattern's first character passes through replaceAll in front of the rest |
| JavaRegex.ReplaceAllWithoutLead | src/main/java/app/sencico/edu/pe/gematica/service/CommandTranslator.java:160-168 | replaceAll leaves alone text lacking the pattern's first character |
| JavaRegex.ReplaceAllSelf | src/main/java/app/sencico/edu/pe/gematica/service/CommandTranslator.java:84 | replacing a literal by itself changes nothing |
| JavaRegex.ReplaceAllUndone | src/main/java/app/sencico/edu/pe/gematica/service/CommandTranslator.java:99-107 | replacing p by q, then q by the text p always matched, restores the input when q's first character was absent from it |
| JavaRegex.LiteralRoundTrip | src/main/java/app/sencico/edu/pe/gematica/service/CommandTranslator.java:208-211 | replacing literal t by q and q back by t restores the input when q's first character was absent from it |
| JavaRegex.ReplaceAllClearsLead | src/main/java/app/sencico/edu/pe/gematica/service/CommandTranslator.java:99 | when every occurrence of the first character starts a match and the replacement lacks it, the result lacks it |
| JavaRegex.FlagNumberMatch | src/main/java/app/sencico/edu/pe/gematica/service/CommandTranslator.java:74-76 | flag, whitespace and digits followed by a non-digit match with the whole digit run as group 1 |
| JavaRegex.FlagNumberRewrite | src/main/java/app/sencico/edu/pe/gematica/service/CommandTranslator.java:74-83 | such a flag is rewritten to before + digits + after, with the text in front untouched |
| JavaRegex.ReplaceAllSkipsOne | src/main/java/app/sencico/edu/pe/gematica/service/CommandTranslator.java:81-84 | text whose only candidate position does not match is left as it is |
| JavaRegex.LiteralPassRewrites | src/main/java/app/sencico/edu/pe/gematica/service/CommandTranslator.java:160-168 | a literal flag whose first character occurs nowhere else is replaced, and nothing else changes |
| JavaRegex.LiteralPassSkips | src/main/java/app/sencico/edu/pe/gematica/service/CommandTranslator.java:160-168 | the pass for one two-character flag leaves another flag with the same first character alone |
| JavaRegex.PassesWithoutLead | src/main/java/app/sencico/edu/pe/gematica/service/CommandTranslator.java:160-168 | a chain of replaceAll calls for flags with one lead character leaves text without that character unchanged |
| JavaRegex.PassesRewriteOne | src/main/java/app/sencico/edu/pe/gematica/service/CommandTranslator.java:160-168 | in text whose only lead character starts one flag, the chain replaces that flag by its own replacement and nothing else |
| HostPlatform.HostFamily | src/main/java/app/sencico/edu/pe/gematica/service/CommandTranslator.java:244-249 | the host designates WINDOWS, MAC or LINUX; any name containing "win" designates WINDOWS |
| HostPlatform.ResolvePlatform | src/main/java/app/sencico/edu/pe/gematica/service/CommandTranslator.java:242-253 | null or AUTO (any case) is replaced by the host's platform when it has one; every other value, or a host with none, is returned as given |
| HostPlatform.ConcreteIsNotAuto | src/main/java/app/sencico/edu/pe/gematica/service/CommandExecutorService.java:120 | WINDOWS, MAC and LINUX never read as AUTO |
| HostPlatform.ResolveIdempotent | src/main/java/app/sencico/edu/pe/gematica/service/CommandExecutorService.java:36-43 | resolving the already-resolved platform again (as the translator does) gives the same value |
| HostPlatform.WindowsHostName | src/main/java/app/sencico/edu/pe/gematica/service/CommandExecutorService.java:121-122 | a null platform on "Windows 11" resolves to WINDOWS |
| HostPlatform.MacHostName | src/main/java/app/sencico/edu/pe/gematica/service/CommandExecutorService.java:123-124 | "auto" on "Mac OS X" resolves to MAC |
| HostPlatform.LinuxHostName | src/main/java/app/sencico/edu/pe/gematica/service/CommandExecutorService.java:125-126 | AUTO on "Linux" resolves to LINUX |
| HostPlatform.UnknownHostName | src/main/java/app/sencico/edu/pe/gematica/service/CommandExecutorService.java:119-130 | AUTO on "SunOS" stays AUTO |
| CommandTranslator.FamilyOf | src/main/java/app/sencico/edu/pe/gematica/service/CommandTranslator.java:33-64 | a recognised name is the Unix or the Windows name of its family, and each family's two names are recognised as that family |
| CommandTranslator.IsWindows | src/main/java/app/sencico/edu/pe/gematica/service/CommandTranslator.java:258-260 | isWindows throws exactly on a null platform, and then NullPointerException |
| CommandTranslator.PingToWindows | src/main/java/app/sencico/edu/pe/gematica/service/CommandTranslator.java:72-76 | ping's three replaceAll calls toward Windows; stated by the Ping...ToWindows lemmas |
| CommandTranslator.PingToUnix | src/main/java/app/sencico/edu/pe/gematica/service/CommandTranslator.java:79-84 | ping's four replaceAll calls toward Unix; stated by the Ping...ToUnix lemmas |
| CommandTranslator.ListToWindows | src/main/java/app/sencico/edu/pe/gematica/service/CommandTranslator.java:96-101 | ls's three replaceAll calls toward Windows; stated by LongListingToWindows, ShortListingToWindows, SubdirectoriesToWindows and HumanReadableDropped |
| CommandTranslator.ListToUnix | src/main/java/app/sencico/edu/pe/gematica/service/CommandTranslator.java:102-107 | dir's three replaceAll calls toward Unix; stated by AllFilesToUnix, SubdirectoriesToUnix and BareFormatToUnix |
| CommandTranslator.ProcessArguments | src/main/java/app/sencico/edu/pe/gematica/service/CommandTranslator.java:116-132 | ps/tasklist's wholesale replacement; stated by ProcessIdempotent and ProcessRoundTrip |
| CommandTranslator.NetworkArguments | src/main/java/app/sencico/edu/pe/gematica/service/CommandTranslator.java:137-151 | ifconfig/ipconfig's wholesale replacement; stated by NetworkIdempotent and NetworkRoundTrip |
| CommandTranslator.SearchArguments | src/main/java/app/sencico/edu/pe/gematica/service/CommandTranslator.java:156-172 | grep/findstr's three replaceAll calls each way; stated by SearchFlagsToWindows, SearchFlagsToUnix and SearchFlagRoundTrip |
| CommandTranslator.DeleteArguments | src/main/java/app/sencico/edu/pe/gematica/service/CommandTranslator.java:189-200 | rm/del's two replaceAll calls each way; stated by DeleteFlagsToWindows, DeleteFlagsToUnix, DeleteFlagRoundTrip and DeleteBundledFlags |
| CommandTranslator.CopyArguments | src/main/java/app/sencico/edu/pe/gematica/service/CommandTranslator.java:205-214 | cp/copy's replaceAll each way; stated by CopyFlags and CopyRoundTrip |
| CommandTranslator.FamilyArguments | src/main/java/app/sencico/edu/pe/gematica/service/CommandTranslator.java:71-237 | the arguments each family's helper returns: cat/type and mv/move keep them, clear/cls empties them |
| CommandTranslator.TranslateFamily | src/main/java/app/sencico/edu/pe/gematica/service/CommandTranslator.java:71-237 | the helpers' result: ping keeps the given name, every other family takes the target platform's name; stated by SpellingIgnored, PingKeepsName and NamedPlatformTranslation |
| CommandTranslator.TranslateCommand | src/main/java/app/sencico/edu/pe/gematica/service/CommandTranslator.java:24-66 | null or blank arguments, and names outside the ten families, come back unchanged; it throws, a NullPointerException, exactly when it reaches isWindows with a null platform |
| TranslatorProperties.FlagPassesOver | src/main/java/app/sencico/edu/pe/gematica/service/CommandTranslator.java:74-83 | a flag-number pass leaves alone text whose only '-' starts another flag |
| TranslatorProperties.FlagPassRewrites | src/main/java/app/sencico/edu/pe/gematica/service/CommandTranslator.java:74-83 | a flag-number pass rewrites its flag in text with no other '-' |
| TranslatorProperties.PingCountToWindows | src/main/java/app/sencico/edu/pe/gematica/service/CommandTranslator.java:72-76 | toward Windows "-c N" becomes "-n N" |
| TranslatorProperties.PingIntervalToWindows | src/main/java/app/sencico/edu/pe/gematica/service/CommandTranslator.java:72-76 | toward Windows "-i N" becomes "-w N000" |
| TranslatorProperties.PingSizeToWindows | src/main/java/app/sencico/edu/pe/gematica/service/CommandTranslator.java:72-76 | toward Windows "-s N" becomes "-l N" |
| TranslatorProperties.ContinuousKept | src/main/java/app/sencico/edu/pe/gematica/service/CommandTranslator.java:84 | the "-t" pass changes nothing |
| TranslatorProperties.PingCountToUnix | src/main/java/app/sencico/edu/pe/gematica/service/CommandTranslator.java:79-84 | toward Unix "-n N" becomes "-c N" |
| TranslatorProperties.PingTimeoutToUnix | src/main/java/app/sencico/edu/pe/gematica/service/CommandTranslator.java:79-84 | toward Unix "-w N" becomes "-W N", with the number not divided by 1000 |
| TranslatorProperties.PingSizeToUnix | src/main/java/app/sencico/edu/pe/gematica/service/CommandTranslator.java:79-84 | toward Unix "-l N" becomes "-s N" |
| TranslatorProperties.PingWithoutFlags | src/main/java/app/sencico/edu/pe/gematica/service/CommandTranslator.java:71-90 | arguments without '-' pass through ping in both directions |
| TranslatorProperties.PingCountRoundTrip | src/main/java/app/sencico/edu/pe/gematica/service/CommandTranslator.java:74-81 | "-c N" survives the trip to Windows and back, with its whitespace reduced to one space |
| TranslatorProperties.OneSpaceTimeoutToUnix | src/main/java/app/sencico/edu/pe/gematica/service/CommandTranslator.java:82 | the Windows form "-w N" reads back toward Unix as "-W N" |
| TranslatorProperties.PingIntervalRoundTrip | src/main/java/app/sencico/edu/pe/gematica/service/CommandTranslator.java:75-82 | "-i N" comes back from Windows as "-W N000" |
| TranslatorProperties.PingIntervalNotRestored | src/main/java/app/sencico/edu/pe/gematica/service/CommandTranslator.java:75-82 | so the interval rewrite has no inverse |
| TranslatorProperties.LongListingToWindows | src/main/java/app/sencico/edu/pe/gematica/service/CommandTranslator.java:99-101 | with only "-la" flags, the trip toward Windows is the "-la?" pass and leaves no '-' |
| TranslatorProperties.LongListingMatches | src/main/java/app/sencico/edu/pe/gematica/service/CommandTranslator.java:99 | in such text every "-la?" match is the three characters "-la" |
| TranslatorProperties.ListRoundTrip | src/main/java/app/sencico/edu/pe/gematica/service/CommandTranslator.java:95-108 | arguments whose only flags are "-la", without '/', survive the trip to Windows and back |
| TranslatorProperties.ShortFlagMatch | src/main/java/app/sencico/edu/pe/gematica/service/CommandTranslator.java:99 | "-la?" matches just the "-l" of a lone "-l" |
| TranslatorProperties.ShortFlagPass | src/main/java/app/sencico/edu/pe/gematica/service/CommandTranslator.java:99 | a leading lone "-l" becomes "/a" |
| TranslatorProperties.ShortListingToWindows | src/main/java/app/sencico/edu/pe/gematica/service/CommandTranslator.java:99-101 | toward Windows a lone "-l" becomes "/a" |
| TranslatorProperties.AllFilesToUnix | src/main/java/app/sencico/edu/pe/gematica/service/CommandTranslator.java:105-107 | toward Unix "/a" becomes "-la" |
| TranslatorProperties.ShortListingNotRestored | src/main/java/app/sencico/edu/pe/gematica/service/CommandTranslator.java:99-105 | a lone "-l" comes back from Windows as "-la" |
| TranslatorProperties.HumanReadableDropped | src/main/java/app/sencico/edu/pe/gematica/service/CommandTranslator.java:99-101 | toward Windows "-h" is deleted |
| TranslatorProperties.BareFormatToUnix | src/main/java/app/sencico/edu/pe/gematica/service/CommandTranslator.java:105-107 | toward Unix "/b" becomes "-1" |
| TranslatorProperties.ProcessIdempotent | src/main/java/app/sencico/edu/pe/gematica/service/CommandTranslator.java:116-132 | translating the fixed flag a process translation produced again changes nothing |
| TranslatorProperties.ProcessRoundTrip | src/main/java/app/sencico/edu/pe/gematica/service/CommandTranslator.java:116-132 | "-e"/"aux" go to "/v" and come back as "aux"; "/v" goes to "aux" and comes back as "/v" |
| TranslatorProperties.NetworkIdempotent | src/main/java/app/sencico/edu/pe/gematica/service/CommandTranslator.java:137-151 | translating the fixed flag a network translation produced again changes nothing |
| TranslatorProperties.NetworkRoundTrip | src/main/java/app/sencico/edu/pe/gematica/service/CommandTranslator.java:137-151 | "-a" and "/all" each come back as themselves |
| TranslatorProperties.CopyRoundTrip | src/main/java/app/sencico/edu/pe/gematica/service/CommandTranslator.java:205-214 | copy arguments survive the trip to Windows and back (no '/') and to Unix and back (no '-') |
| TranslatorProperties.SearchFlagsToWindows | src/main/java/app/sencico/edu/pe/gematica/service/CommandTranslator.java:157-162 | toward Windows "-i", "-r" and "-n" become "/i", "/s" and "/n" |
| TranslatorProperties.SearchFlagsToUnix | src/main/java/app/sencico/edu/pe/gematica/service/CommandTranslator.java:163-168 | toward Unix "/i", "/s" and "/n" become "-i", "-r" and "-n" |
| TranslatorProperties.SearchFlagRoundTrip | src/main/java/app/sencico/edu/pe/gematica/service/CommandTranslator.java:156-172 | each grep flag, alone in text without '-' or '/', survives the trip to Windows and back |
| TranslatorProperties.DeleteFlagsToWindows | src/main/java/app/sencico/edu/pe/gematica/service/CommandTranslator.java:190-193 | toward Windows "-r" and "-f" become "/s" and "/f" |
| TranslatorProperties.DeleteFlagsToUnix | src/main/java/app/sencico/edu/pe/gematica/service/CommandTranslator.java:194-197 | toward Unix "/s" and "/f" become "-r" and "-f" |
| TranslatorProperties.DeleteFlagRoundTrip | src/main/java/app/sencico/edu/pe/gematica/service/CommandTranslator.java:189-200 | each rm flag, alone in text without '-' or '/', survives the trip to Windows and back |
| TranslatorProperties.CopyFlags | src/main/java/app/sencico/edu/pe/gematica/service/CommandTranslator.java:205-214 | toward Windows "-r" becomes "/s"; toward Unix "/s" becomes "-r" |
| TranslatorProperties.SubdirectoriesToWindows | src/main/java/app/sencico/edu/pe/gematica/service/CommandTranslator.java:99-101 | toward Windows "-R" becomes "/s", untouched by the "-la?" pass before it |
| TranslatorProperties.SubdirectoriesToUnix | src/main/java/app/sencico/edu/pe/gematica/service/CommandTranslator.java:105-107 | toward Unix "/s" becomes "-R" |
| TranslatorProperties.LiteralFamiliesWithoutFlags | src/main/java/app/sencico/edu/pe/gematica/service/CommandTranslator.java:156-200 | search and delete arguments without flag characters pass through |
| TranslatorProperties.RecursiveFlagPass | src/main/java/app/sencico/edu/pe/gematica/service/CommandTranslator.java:192 | a leading "-r" becomes "/s" |
| TranslatorProperties.DeleteBundledFlags | src/main/java/app/sencico/edu/pe/gematica/service/CommandTranslator.java:189-200 | "-rf" goes to Windows as "/sf": the force flag is not translated |
| TranslatorProperties.IsWindowsByName | src/main/java/app/sencico/edu/pe/gematica/service/CommandTranslator.java:258-260 | isWindows on a non-null platform is "contains win after lower-casing" |
| TranslatorProperties.WindowsPlatform | src/main/java/app/sencico/edu/pe/gematica/service/CommandTranslator.java:258-260 | WINDOWS is Windows |
| TranslatorProperties.LinuxPlatform | src/main/java/app/sencico/edu/pe/gematica/service/CommandTranslator.java:258-260 | LINUX is not Windows |
| TranslatorProperties.MacPlatform | src/main/java/app/sencico/edu/pe/gematica/service/CommandTranslator.java:258-260 | MAC is not Windows |
| TranslatorProperties.NamedPlatformTranslation | src/main/java/app/sencico/edu/pe/gematica/service/CommandTranslator.java:24-66 | a request naming WINDOWS, LINUX or MAC is translated for that platform on any host |
| TranslatorProperties.SpellingIgnored | src/main/java/app/sencico/edu/pe/gematica/service/CommandTranslator.java:33-62 | names of one family, in any case, translate alike, to the target's name for the family |
| TranslatorProperties.PingKeepsName | src/main/java/app/sencico/edu/pe/gematica/service/CommandTranslator.java:89 | ping keeps the name it was given |
| TranslatorProperties.ClearDropsArguments | src/main/java/app/sencico/edu/pe/gematica/service/CommandTranslator.java:231-237 | for non-blank arguments and a platform that is already resolved, clear/cls yields ("cls", "") or ("clear", ""); null or blank arguments come back unchanged and a null platform throws (TranslateCommand) |
| CommandEquivalences.CommandEquivalencies | src/main/java/app/sencico/edu/pe/gematica/service/CommandTranslator.java:286-312 | the 18 puts of `getCommandEquivalencies`; stated by the lemmas below |
| CommandEquivalences.HalvesDisjoint | src/main/java/app/sencico/edu/pe/gematica/service/CommandTranslator.java:289-309 | no name is both a Windows key and a Unix key |
| CommandEquivalences.WindowsHalfSize | src/main/java/app/sencico/edu/pe/gematica/service/CommandTranslator.java:290-298 | the Windows-to-Unix puts make nine entries |
| CommandEquivalences.UnixHalfSize | src/main/java/app/sencico/edu/pe/gematica/service/CommandTranslator.java:301-309 | the Unix-to-Windows puts make nine entries |
| CommandEquivalences.HalvesInverse | src/main/java/app/sencico/edu/pe/gematica/service/CommandTranslator.java:289-309 | each half undoes the other |
| CommandEquivalences.EquivalencesInvolution | src/main/java/app/sencico/edu/pe/gematica/service/CommandTranslator.java:286-312 | the table has 18 entries, and looking up a value gives back its key |
| TranslatorProperties.EquivalencesFollowFamilies | src/main/java/app/sencico/edu/pe/gematica/service/CommandTranslator.java:286-312 | the table pairs the same names as the translator's families |
| CommandExecutor.ShellPrefix | src/main/java/app/sencico/edu/pe/gematica/service/CommandExecutorService.java:135-154 | the shell is always `cmd /c` or `/bin/sh -c` |
| CommandExecutor.ShellArgument | src/main/java/app/sencico/edu/pe/gematica/service/CommandExecutorService.java:157-161 | the command line starts with the command and is the command alone exactly when arguments are null or empty |
| CommandExecutor.BuildCommand | src/main/java/app/sencico/edu/pe/gematica/service/CommandExecutorService.java:132-164 | the appended list is the shell prefix then the command line; a null platform throws NullPointerException |
| CommandExecutor.ReadStream | src/main/java/app/sencico/edu/pe/gematica/service/CommandExecutorService.java:166-173 | the drained text is every line followed by the separator |
| CommandExecutor.ExitsBeforeDeadline | src/main/java/app/sencico/edu/pe/gematica/service/CommandExecutorService.java:73 | `waitFor(timeout, SECONDS)`, called once both streams are at their end, reports whether the process exits within `timeout` seconds of that moment |
| CommandExecutor.ExecutionOf | src/main/java/app/sencico/edu/pe/gematica/service/CommandExecutorService.java:31-117 | the decision logic of `executeCommand`, step by step in source order; a process is destroyed only if it was started, and only CommandExecutionException escapes |
| CommandExecutor.ExecuteCommand | src/main/java/app/sencico/edu/pe/gematica/service/CommandExecutorService.java:31-117 | the imperative run produces exactly the execution the decision function prescribes |
| ExecutorProperties.JoinedAppend | src/main/java/app/sencico/edu/pe/gematica/service/CommandExecutorService.java:166-173 | draining two batches of lines gives the two texts in order |
| ExecutorProperties.JoinedIsJoinPlusSeparator | src/main/java/app/sencico/edu/pe/gematica/service/CommandExecutorService.java:166-173 | the text is empty for no lines, otherwise String.join of the lines plus one final separator |
| ExecutorProperties.JoinedLength | src/main/java/app/sencico/edu/pe/gematica/service/CommandExecutorService.java:166-173 | the text has the lines' length plus one separator per line |
| ExecutorProperties.UpperPlatformNames | src/main/java/app/sencico/edu/pe/gematica/service/CommandExecutorService.java:135 | the platform names are their own upper case |
| ExecutorProperties.NamedPlatformShell | src/main/java/app/sencico/edu/pe/gematica/service/CommandExecutorService.java:135-144 | WINDOWS gets `cmd /c` and LINUX/MAC get `/bin/sh -c`, whatever the host |
| ExecutorProperties.ShellAgreesWithTranslation | src/main/java/app/sencico/edu/pe/gematica/service/CommandExecutorService.java:36-46 | for null, AUTO, WINDOWS, LINUX or MAC, the shell is cmd exactly when the arguments were translated for Windows |
| ExecutorProperties.ExecutedCommandText | src/main/java/app/sencico/edu/pe/gematica/service/CommandExecutorService.java:89 | the executed command is three elements joined by spaces: "cmd /c " or "/bin/sh -c " then the command line |
| ExecutorProperties.ResolvedTranslationSucceeds | src/main/java/app/sencico/edu/pe/gematica/service/CommandExecutorService.java:36-43 | a platform that resolves never makes the translator throw |
| ExecutorProperties.MissingDirectoryRaisesBeforeStart | src/main/java/app/sencico/edu/pe/gematica/service/CommandExecutorService.java:52-58 | a missing working directory raises CommandExecutionException with its path and starts nothing, whatever the process would do |
| ExecutorProperties.NullPlatformFault | src/main/java/app/sencico/edu/pe/gematica/service/CommandExecutorService.java:102-115 | an unresolved null platform gives the -1 response of a NullPointerException and starts nothing |
| ExecutorProperties.TimeoutDestroysAndRaises | src/main/java/app/sencico/edu/pe/gematica/service/CommandExecutorService.java:69-78 | a process still running `timeout` seconds after both its streams were read to their end is destroyed, and CommandExecutionException is thrown, with no response |
| ExecutorProperties.OpenOutputNeverTimesOut | src/main/java/app/sencico/edu/pe/gematica/service/CommandExecutorService.java:69-78 | a process that keeps its output open until it exits is never destroyed and always yields its exit code, however long it runs |
| ExecutorProperties.CompletedRun | src/main/java/app/sencico/edu/pe/gematica/service/CommandExecutorService.java:80-97 | a finished process yields its exit code, both drained texts, the shell command line and the directory it ran in |
| ExecutorProperties.NamedPlatformCommandLine | src/main/java/app/sencico/edu/pe/gematica/service/CommandExecutorService.java:135-144 | a request naming WINDOWS runs "cmd /c ..." and one naming LINUX or MAC "/bin/sh -c ...", on any host |
| ExecutorProperties.StatusFollowsExitCode | src/main/java/app/sencico/edu/pe/gematica/service/CommandExecutorService.java:85-86 | every response is SUCCESS exactly when its exit code is 0, ERROR otherwise |
| ExecutorProperties.MessageFollowsExitCode | src/main/java/app/sencico/edu/pe/gematica/service/CommandExecutorService.java:96 | every response carries the success message exactly when its exit code is 0 |
| ExecutorProperties.CompletedMessage | src/main/java/app/sencico/edu/pe/gematica/service/CommandExecutorService.java:96 | the error message with the code is never the success message |
| ExecutorProperties.FaultResponses | src/main/java/app/sencico/edu/pe/gematica/service/CommandExecutorService.java:102-115 | a caught fault gives ERROR, -1, the raw request command, the request's directory and the fault message, and nothing is destroyed |
| ExecutorProperties.EscapingExceptions | src/main/java/app/sencico/edu/pe/gematica/service/CommandExecutorService.java:99-101 | only CommandExecutionException escapes, for a missing directory or a timeout, and a process is destroyed exactly on timeout |
| ExecutorProperties.StartedOnlyAfterChecks | src/main/java/app/sencico/edu/pe/gematica/service/CommandExecutorService.java:52-66 | a process is started only after the platform resolved, the directory checked out and start() succeeded |

## Left out

- Process spawning, `waitFor`, `destroyForcibly` and the stream readers are OS I/O. An oracle `Process` value stands in for them. Reading stdout fully before stderr can deadlock a real process; the oracle cannot show that.
- The oracle gives the moment both streams are at their end and the moment of exit as whole seconds from the start. A process whose output never ends, so that `readStream` blocks for ever and the timeout is never reached, cannot be expressed.
- `System.getProperty`: `os.name`, `os.version`, `line.separator` and `user.dir` are parameters.
- The timing fields `executionTime` and `executedAt`, and all logging, are left out. They depend on the clock and have no effect on the outcome.
- `getAvailableCommands` is fixed help text with no behaviour.
- The controller, DTOs, validation annotations, exception handler and application bootstrap are not part of this model. They only route and carry data. The request's command is taken to be a non-null string, as its validation requires.
- The response is a value built in one step, not an object filled through setters. The setters only store fields, so the order of the calls changes nothing.
- Case mapping covers ASCII letters only. Java's locale and non-ASCII rules for `toLowerCase`, `toUpperCase` and `equalsIgnoreCase` are not modelled.
- General `java.util.regex` semantics are left out. Only the three kinds of pattern the translator uses are modelled.
- JavaLang.MessageOf takes `getMessage()` of a NullPointerException to be null, rendered "null". Newer JVMs can supply a generated text instead.
- TranslatorProperties.ListRoundTrip and the other round-trip lemmas are stated for arguments in which no other flag character occurs; SearchFlagRoundTrip and DeleteFlagRoundTrip cover one flag at a time. The model itself handles every input, but round trips of arguments carrying several grep/findstr or rm/del flags are not proved.
- The per-flag lemmas of ping, ls/dir, grep/findstr, rm/del and cp/copy state the rewrite of one flag in text with no other flag character, not for every argument string; DeleteBundledFlags covers the bundle "-rf".
