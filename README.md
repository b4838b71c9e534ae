# Inodes node monitor — a verified model

The Jenkins inodes monitor plugin watches the inode usage of every build agent. On each agent
it runs a platform-specific `df` (chosen by `DfRunner` from the OS name) and takes the
used-inodes percentage column from the second output line. `InodesMonitor.data` then compares
that reading with the configured threshold (default `95%`). A reading at or above the
threshold asks the host to mark the agent offline, with an `Inodes` offline cause. A lower
reading asks the host to bring the agent back online, but only when the agent's current
offline cause is an `Inodes`.

Modules, one per source file, plus two helper modules:

- `Wrappers`: `Option` (Java `null`) and `Result` (a checked exception).
- `Strings`: the Java library calls the source relies on: `\d`, `Integer.parseInt`, ASCII
  `toLowerCase`, `startsWith`, `contains` and `split(" +")`; plus `NatToString`
  (`Integer.toString`), which the source only uses for a log message, as the reference that
  `Integer.parseInt` is proved to invert.
  `Split` follows the regex engine's rules. When no space occurs it returns the input itself,
  so `""` gives `[""]`. Otherwise it returns the pieces between maximal runs of spaces, with
  trailing empty pieces removed.
- `DfRunner`: the `DfCommand` subclasses, the ordered `IMPLEMENTATIONS` table, and
  `findImplementation`. It also holds `DfCommand.get`, proved against the function
  `ReadValue`, and `getUsedInodesPercentage`.
- `InodesMonitor`: `parse`, both constructors, the `Inodes` record (a class) and `data`.
  `data` is proved against the decision function `Decide`.

Inputs that the source reads from the environment are parameters:

- the OS name (`os.name`);
- the standard output of `df`, given as its lines, or `IoFailure` for an `IOException`;
- the two `Messages` sentinel texts, whose wording is not part of this model;
- the agent's current offline cause: `NoCause` (`null`), `InodesCause` or `OtherCause`.

Because the sentinels are parameters, every property holds whatever their text is. Where the
answer depends on the text, the property says how. For example, `data` ignores the on-error
sentinel if that text contains the not-applicable text. Otherwise `data` throws, unless the
on-error text itself matches `\d?\d%`; in that case it is compared with the threshold like any
reading (`OnErrorReading`).

A full file system is a case worth knowing. `df` prints its usage as `100%`, which does not
match `\d?\d%`. So `data` throws `IllegalStateException` on that reading, when the not-applicable
text does not occur in it (as "N/A" does not), and does not take the agent offline (`FullFileSystemIsIllegalState`, `FullLinuxAgentThrows`). The model keeps this
behaviour as the code has it.

## Model

| member | source | states |
|---|---|---|
| `Strings.DecimalValueOfNatToString` | src/main/java/org/jenkinsci/plugins/inodesnodemonitor/InodesMonitor.java:63 | `Integer.parseInt(Integer.toString(n)) == n` for every non-negative n |
| `Strings.DecimalValue` | src/main/java/org/jenkinsci/plugins/inodesnodemonitor/InodesMonitor.java:63 | `Integer.parseInt` of a string of k ASCII digits is below 10^k, so two digits give at most 99 |
| `Strings.ToLowerCase` | src/main/java/org/jenkinsci/plugins/inodesnodemonitor/DfRunner.java:33 | `toLowerCase` keeps the length and lowercases each character on its own (ASCII letters only) |
| `Strings.StartsWith` | src/main/java/org/jenkinsci/plugins/inodesnodemonitor/DfRunner.java:33 | `s.startsWith(p)` holds if and only if `p` is no longer than `s` and agrees with `s` at every index of `p` |
| `Strings.Contains` | src/main/java/org/jenkinsci/plugins/inodesnodemonitor/InodesMonitor.java:70 | a string contains only strings no longer than itself |
| `Strings.ContainsIff` | src/main/java/org/jenkinsci/plugins/inodesnodemonitor/InodesMonitor.java:70 | `s.contains(sub)` holds if and only if `sub` occurs at some offset of `s` |
| `Strings.Split` | src/main/java/org/jenkinsci/plugins/inodesnodemonitor/DfRunner.java:66 | no token of `split(" +")` contains a space, and only the first token can be empty |
| `Strings.SplitAligned` | src/main/java/org/jenkinsci/plugins/inodesnodemonitor/DfRunner.java:66-67 | splitting a row of non-empty, space-free tokens separated by runs of one or more spaces gives back exactly those tokens; leading spaces add one empty first token; trailing spaces add nothing |
| `Strings.SplitBlank` | src/main/java/org/jenkinsci/plugins/inodesnodemonitor/DfRunner.java:66 | `"".split(" +")` is `[""]`, and a line of one or more spaces splits to no token at all |
| `DfRunner.FirstMatch` | src/main/java/org/jenkinsci/plugins/inodesnodemonitor/DfRunner.java:31-37 | the result is absent exactly when no key is a prefix; otherwise it is the command of the first entry whose key is a prefix |
| `DfRunner.ImplementationsTable` | src/main/java/org/jenkinsci/plugins/inodesnodemonitor/DfRunner.java:14-22 | every key of the table is already lowercase, and no name starts with two different keys, so at most one entry can match any name |
| `DfRunner.DfCommand.Command` | src/main/java/org/jenkinsci/plugins/inodesnodemonitor/DfRunner.java:77-116 | only the Windows recipe has no command (`null`); Linux runs `df -P -i .`, every other recipe `df -i .` |
| `DfRunner.DfCommand.Line` | src/main/java/org/jenkinsci/plugins/inodesnodemonitor/DfRunner.java:77-116 | only the Windows recipe has no values line (-1); every other recipe reads line 2, after one header line |
| `DfRunner.DfCommand.Column` | src/main/java/org/jenkinsci/plugins/inodesnodemonitor/DfRunner.java:77-116 | only the Windows recipe has no column (-1); Linux and the fallback read column 5, AIX column 6, Mac OS and FreeBSD column 8 |
| `DfRunner.Selected` | src/main/java/org/jenkinsci/plugins/inodesnodemonitor/DfRunner.java:28-39 | the recipe chosen for a name is the fallback, or the command of a table entry whose key starts the lowercased name |
| `DfRunner.SelectedLowercased` | src/main/java/org/jenkinsci/plugins/inodesnodemonitor/DfRunner.java:33 | lowercasing the name first does not change the recipe chosen |
| `DfRunner.FindImplementation` | src/main/java/org/jenkinsci/plugins/inodesnodemonitor/DfRunner.java:28-39 | the loop returns the first table entry, in insertion order, whose key starts the lowercased OS name, or `DefaultDfCommand` when no key does |
| `DfRunner.Get` | src/main/java/org/jenkinsci/plugins/inodesnodemonitor/DfRunner.java:51-85 | the Windows command returns the not-applicable text; otherwise the loop skips `line - 1` lines (reading past the end yields `null`) and the result equals `ReadValue` |
| `DfRunner.GetUsedInodesPercentage` | src/main/java/org/jenkinsci/plugins/inodesnodemonitor/DfRunner.java:24-26 | `findImplementation().get()` returns what `UsedInodesPercentage` specifies for the OS name and output |
| `DfRunner.UsedInodesPercentage` | src/main/java/org/jenkinsci/plugins/inodesnodemonitor/DfRunner.java:24-26 | the reading is one of the two sentinel texts or a single space-free token; it can be out-of-bounds only when `df` printed at least two lines |
| `DfRunner.SelectedWindowsIff` | src/main/java/org/jenkinsci/plugins/inodesnodemonitor/DfRunner.java:17 | the Windows command is chosen if and only if the lowercased name starts with "windows" |
| `DfRunner.SelectedLinuxIff` | src/main/java/org/jenkinsci/plugins/inodesnodemonitor/DfRunner.java:18 | the Linux command is chosen if and only if the lowercased name starts with "linux" |
| `DfRunner.SelectedMacOsIff` | src/main/java/org/jenkinsci/plugins/inodesnodemonitor/DfRunner.java:19-20 | the Mac OS command is chosen if and only if the lowercased name starts with "mac os" or "freebsd" |
| `DfRunner.SelectedAixIff` | src/main/java/org/jenkinsci/plugins/inodesnodemonitor/DfRunner.java:21 | the AIX command is chosen if and only if the lowercased name starts with "aix" |
| `DfRunner.SelectedDefaultIff` | src/main/java/org/jenkinsci/plugins/inodesnodemonitor/DfRunner.java:38 | the fallback command is chosen if and only if no table key starts the lowercased name |
| `DfRunner.SelectedIgnoresCase` | src/main/java/org/jenkinsci/plugins/inodesnodemonitor/DfRunner.java:33 | two names that lowercase to the same string get the same command |
| `DfRunner.SelectedRecipe` | src/main/java/org/jenkinsci/plugins/inodesnodemonitor/DfRunner.java:77-116 | recipe by platform: Windows `(null, -1, -1)`; Linux `("df -P -i .", 2, 5)`; Mac OS and FreeBSD `("df -i .", 2, 8)`; AIX `("df -i .", 2, 6)`; any other name `("df -i .", 2, 5)` |
| `DfRunner.SelectedMacOsX` | src/main/java/org/jenkinsci/plugins/inodesnodemonitor/DfRunner.java:19 | "Mac OS X" gets the Mac OS command |
| `DfRunner.SelectedFreeBsd` | src/main/java/org/jenkinsci/plugins/inodesnodemonitor/DfRunner.java:20 | "FreeBSD" gets the Mac OS command |
| `DfRunner.SelectedSunOs` | src/main/java/org/jenkinsci/plugins/inodesnodemonitor/DfRunner.java:38 | "SunOS" matches no key and gets the fallback command |
| `DfRunner.WindowsIsNotApplicable` | src/main/java/org/jenkinsci/plugins/inodesnodemonitor/DfRunner.java:82-85 | a Windows agent returns the not-applicable text whatever `df` would print |
| `DfRunner.IoFailureIsOnError` | src/main/java/org/jenkinsci/plugins/inodesnodemonitor/DfRunner.java:70-73 | on any non-Windows agent an `IOException` gives the on-error text and is not propagated |
| `DfRunner.ReadValueSkipsHeader` | src/main/java/org/jenkinsci/plugins/inodesnodemonitor/DfRunner.java:58-67 | with `line - 1` header lines, the result comes from the next line's token `column - 1`, and later lines are ignored; too few tokens is an out-of-bounds error |
| `DfRunner.ReadValue` | src/main/java/org/jenkinsci/plugins/inodesnodemonitor/DfRunner.java:57-73 | an out-of-bounds error happens only when the values line was read; any result other than the on-error text is one of that line's `split(" +")` tokens |
| `DfRunner.TruncatedOutputIsOnError` | src/main/java/org/jenkinsci/plugins/inodesnodemonitor/DfRunner.java:58-64 | output with fewer than `line` lines gives the on-error text |
| `DfRunner.ReadValueAlignedRow` | src/main/java/org/jenkinsci/plugins/inodesnodemonitor/DfRunner.java:58-67 | on a space-padded values line, column `column` is token `column - 1`, shifted by one when the line starts with spaces; column 1 is then `""`; out-of-range columns throw |
| `DfRunner.BlankValuesLine` | src/main/java/org/jenkinsci/plugins/inodesnodemonitor/DfRunner.java:61-67 | an empty values line gives `""` for column 1 and throws out-of-bounds for any other column; a values line of spaces throws for every column |
| `DfRunner.LinuxReadsFifthColumn` | src/main/java/org/jenkinsci/plugins/inodesnodemonitor/DfRunner.java:88-95 | on Linux the reading is the fifth token of the second output line |
| `DfRunner.LinuxExample` | src/main/java/org/jenkinsci/plugins/inodesnodemonitor/DfRunner.java:61-67 | typical `df -P -i .` output on Linux yields its `IUse%` value `"8%"` |
| `InodesMonitor.Parse` | src/main/java/org/jenkinsci/plugins/inodesnodemonitor/InodesMonitor.java:59-64 | parsing succeeds if and only if the whole string is one or two ASCII digits then `%`; the value is in 0..99; a failure is `ParseException(threshold, 0)` |
| `InodesMonitor.MatchesPercent` | src/main/java/org/jenkinsci/plugins/inodesnodemonitor/InodesMonitor.java:60 | `\d?\d%` matches exactly the strings of two or three characters whose last is `%` and whose others are ASCII digits |
| `InodesMonitor.ParseValue` | src/main/java/org/jenkinsci/plugins/inodesnodemonitor/InodesMonitor.java:63 | the value is the decimal number of the digits before `%` |
| `InodesMonitor.ParseIff` | src/main/java/org/jenkinsci/plugins/inodesnodemonitor/InodesMonitor.java:59-64 | `parse(s) == n` if and only if n is in 0..99 and s is `Integer.toString(n) + "%"`, or also `"0" + Integer.toString(n) + "%"` when n < 10 |
| `InodesMonitor.ParseRoundTrip` | src/main/java/org/jenkinsci/plugins/inodesnodemonitor/InodesMonitor.java:63 | for every n in 0..99, `parse(Integer.toString(n) + "%") == n` |
| `InodesMonitor.ParseExamples` | src/main/java/org/jenkinsci/plugins/inodesnodemonitor/InodesMonitor.java:38-40 | "5%", "95%", "05%" and "0%" are accepted; "5", "100%", "abc%", "" and "%" are rejected |
| `InodesMonitor.NewMonitor` | src/main/java/org/jenkinsci/plugins/inodesnodemonitor/InodesMonitor.java:46-52 | a `null` threshold becomes "95%"; the text is stored unchanged if and only if it parses; otherwise construction throws `ParseException(text, 0)` |
| `InodesMonitor.DefaultMonitor` | src/main/java/org/jenkinsci/plugins/inodesnodemonitor/InodesMonitor.java:54-56 | the no-argument constructor's threshold parses to 95 |
| `InodesMonitor.ConstructedMonitorsParse` | src/main/java/org/jenkinsci/plugins/inodesnodemonitor/InodesMonitor.java:34-56 | a `null` threshold builds the same monitor as the no-argument constructor; the threshold of every constructed monitor parses |
| `InodesMonitor.Inodes.constructor` | src/main/java/org/jenkinsci/plugins/inodesnodemonitor/InodesMonitor.java:155-158 | a new record keeps usage and threshold as given, has no trigger, and is not triggered |
| `InodesMonitor.Inodes.SetTriggered` | src/main/java/org/jenkinsci/plugins/inodesnodemonitor/InodesMonitor.java:160-163 | sets `trigger` and `triggered`; `usage` and `threshold` are final |
| `InodesMonitor.Data` | src/main/java/org/jenkinsci/plugins/inodesnodemonitor/InodesMonitor.java:67-101 | returns a fresh `Inodes` holding the reading and threshold unchanged; it is triggered by `InodesMonitor` if and only if the outcome is an offline request; the outcome is `Decide` |
| `InodesMonitor.Decide` | src/main/java/org/jenkinsci/plugins/inodesnodemonitor/InodesMonitor.java:67-101 | `data` throws `IllegalStateException` if and only if a present, applicable reading or the threshold does not match `\d?\d%` |
| `InodesMonitor.NoDataLeavesAgentAlone` | src/main/java/org/jenkinsci/plugins/inodesnodemonitor/InodesMonitor.java:70-72 | a `null` reading, or one containing the not-applicable text, requests nothing |
| `InodesMonitor.RequestOfflineIff` | src/main/java/org/jenkinsci/plugins/inodesnodemonitor/InodesMonitor.java:82-84 | `markOffline` is requested if and only if a present, applicable reading parses and is at least the parsed threshold |
| `InodesMonitor.RequestOnlineIff` | src/main/java/org/jenkinsci/plugins/inodesnodemonitor/InodesMonitor.java:89-91 | `markOnline` is requested if and only if a present, applicable reading parses, is below the threshold, and the current offline cause is an `Inodes` |
| `InodesMonitor.ForeignCauseNeverCleared` | src/main/java/org/jenkinsci/plugins/inodesnodemonitor/InodesMonitor.java:90 | an agent that is not offline because of an `Inodes` is never asked to come back online |
| `InodesMonitor.OfflineIgnoresCause` | src/main/java/org/jenkinsci/plugins/inodesnodemonitor/InodesMonitor.java:82-84 | whether offline is requested does not depend on the agent's current offline cause |
| `InodesMonitor.IllegalStateIff` | src/main/java/org/jenkinsci/plugins/inodesnodemonitor/InodesMonitor.java:96-98 | for a constructed monitor, `data` throws `IllegalStateException` if and only if a present, applicable reading does not match `\d?\d%` |
| `InodesMonitor.ThresholdIsInclusive` | src/main/java/org/jenkinsci/plugins/inodesnodemonitor/InodesMonitor.java:82 | with the default threshold, "95%" requests offline; "94%" requests online only for an `Inodes` cause and nothing otherwise |
| `InodesMonitor.PercentReadingIsCompared` | src/main/java/org/jenkinsci/plugins/inodesnodemonitor/InodesMonitor.java:70-91 | when the not-applicable text has a character that is neither a digit nor `%` (as "N/A" does), a well-formed reading is always compared with a well-formed threshold: offline at or above it, online below it only for an `Inodes` cause |
| `InodesMonitor.NotApplicableSentinel` | src/main/java/org/jenkinsci/plugins/inodesnodemonitor/InodesMonitor.java:70 | with the sentinel "N/A" and an agent held offline by an `Inodes`, a well-formed reading is never ignored: below a well-formed threshold it requests online, at or above it offline |
| `InodesMonitor.FullFileSystemIsIllegalState` | src/main/java/org/jenkinsci/plugins/inodesnodemonitor/InodesMonitor.java:74 | a "100%" reading throws `IllegalStateException` |
| `InodesMonitor.WindowsAgentUnchanged` | src/main/java/org/jenkinsci/plugins/inodesnodemonitor/InodesMonitor.java:70 | the reading of a Windows agent never changes its state |
| `InodesMonitor.OnErrorReading` | src/main/java/org/jenkinsci/plugins/inodesnodemonitor/InodesMonitor.java:70-74 | the on-error text is ignored if it contains the not-applicable text; otherwise, unless it matches `\d?\d%`, `data` throws |
| `InodesMonitor.FullLinuxAgentThrows` | src/main/java/org/jenkinsci/plugins/inodesnodemonitor/DfRunner.java:88-95 | a Linux agent whose `IUse%` column reads "100%" yields that reading, and `data` then throws instead of taking the agent offline |

## Left out

- Running `df` (`Runtime.exec`), the `BufferedReader` with its US-ASCII decoding, and logging: I/O. The output is a given sequence of lines, or `IoFailure`.
- An `IOException` part-way through reading: it has the same outcome as a failure to start the process, so `IoFailure` covers both. The model cannot express an `IOException` thrown by `close()` after `split[column - 1]` has already thrown. Java suppresses that exception and still throws out-of-bounds, but `IoFailure` always gives the on-error text.
- `super.data(computer)`, the async descriptor and the `MasterToSlaveCallable` remoting: host-framework caching and concurrency. So `data` takes the cached reading as an `Option<string>`. What the host caches when `get` throws out-of-bounds is not part of this model.
- What `markOffline` and `markOnline` do, and what they return: Jenkins core is not part of this model. `data` returns the request it makes, and the agent state is only the offline cause it reads. For this reason the model does not cover sequences of polls, so it has no hysteresis scenarios.
- The computer-name and `currentState` strings built in `data`: they only feed log messages.
- `getColumnCaption`: a permission check through `Jenkins.get()`.
- `@Extension`, `@DataBoundConstructor` and the descriptor's display name: framework wiring.
- `Inodes.toString` and the text of every `Messages` entry: these texts are not part of this model.
- The `Inodes` getters (`isTriggered`, `getTrigger`, `getUsage`): the model reads the fields directly. `trigger` is an `Option` because `getTrigger` returns `null` until `setTriggered` runs.
- `toLowerCase` is modelled as ASCII lowercasing, not the locale-sensitive Java method.
- `this.getClass()` is modelled as the `InodesMonitor` class itself, not a subclass.
- `DfRunnerTest`: it runs the real `df`, so its assertions depend on the machine it runs on. It is not a property of the logic.
