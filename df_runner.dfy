/**
 * `DfRunner`: picks a `df` recipe from the operating-system name and extracts the
 * inode-usage column from the command's standard output.
 *
 * The process itself is not modelled: its standard output is given as the sequence of
 * lines a `BufferedReader` would return, or as `IoFailure` when starting the process or
 * reading from it raises an `IOException`.
 */
module DfRunner {
  import opened Wrappers
  import opened Strings

  /** The two localized sentinel texts; their wording is not part of the model. */
  datatype Messages = Messages(notApplicable: string, onError: string)

  /** What the `df` process gave back. */
  datatype ProcessOutput = IoFailure | Stdout(lines: seq<string>)

  /** `DfCommand.get` either returns a string or throws `ArrayIndexOutOfBoundsException`. */
  datatype GetResult = Returned(value: string) | IndexOutOfBounds

  /** One constructor per `DfCommand` subclass; each fixes the constructor arguments below. */
  datatype DfCommand =
    | WindowsDfCommand
    | LinuxDfCommand
    | AixDfCommand
    | MacOsDfCommand
    | DefaultDfCommand
  {
    /** The command line; `None` is the `null` the Windows subclass passes. */
    function Command(): (c: Option<string>)
      ensures c.None? <==> this == WindowsDfCommand
      ensures c.Some? ==> c.value == (if this == LinuxDfCommand then "df -P -i ." else "df -i .")
    {
      match this
      case WindowsDfCommand => None
      case LinuxDfCommand => Some("df -P -i .")
      case AixDfCommand => Some("df -i .")
      case MacOsDfCommand => Some("df -i .")
      case DefaultDfCommand => Some("df -i .")
    }

    /** 1-based number of the output line holding the values. */
    function Line(): (l: int)
      ensures l < 1 <==> this == WindowsDfCommand
      ensures this != WindowsDfCommand ==> l == 2
    {
      match this
      case WindowsDfCommand => -1
      case LinuxDfCommand => 2
      case AixDfCommand => 2
      case MacOsDfCommand => 2
      case DefaultDfCommand => 2
    }

    /** 1-based number of the column holding the used-inodes percentage. */
    function Column(): (c: int)
      ensures c < 1 <==> this == WindowsDfCommand
      ensures this == LinuxDfCommand || this == DefaultDfCommand ==> c == 5
      ensures this == AixDfCommand ==> c == 6
      ensures this == MacOsDfCommand ==> c == 8
    {
      match this
      case WindowsDfCommand => -1
      case LinuxDfCommand => 5
      case AixDfCommand => 6
      case MacOsDfCommand => 8
      case DefaultDfCommand => 5
    }
  }

  /** The `IMPLEMENTATIONS` map, in insertion order. */
  const IMPLEMENTATIONS: seq<(string, DfCommand)> := [
    ("windows", WindowsDfCommand),
    ("linux", LinuxDfCommand),
    ("mac os", MacOsDfCommand),
    ("freebsd", MacOsDfCommand),
    ("aix", AixDfCommand)
  ]

  /**
   * Every key is already lowercase, so it can match a lowercased name, and at most one key
   * starts any name.
   */
  lemma ImplementationsTable(name: string)
    ensures forall i :: 0 <= i < |IMPLEMENTATIONS| ==> ToLowerCase(IMPLEMENTATIONS[i].0) == IMPLEMENTATIONS[i].0
    ensures forall i, j ::
              (0 <= i < |IMPLEMENTATIONS| && 0 <= j < |IMPLEMENTATIONS|
               && StartsWith(name, IMPLEMENTATIONS[i].0) && StartsWith(name, IMPLEMENTATIONS[j].0)) ==> i == j
  {
    forall i, j | 0 <= i < |IMPLEMENTATIONS| && 0 <= j < |IMPLEMENTATIONS|
                  && StartsWith(name, IMPLEMENTATIONS[i].0) && StartsWith(name, IMPLEMENTATIONS[j].0)
      ensures i == j
    {
      FirstLetter(name, IMPLEMENTATIONS[i].0);
      FirstLetter(name, IMPLEMENTATIONS[j].0);
    }
  }

  /** The first entry of `table` whose key is a prefix of `name`. */
  function FirstMatch(table: seq<(string, DfCommand)>, name: string): (r: Option<DfCommand>)
    ensures r.None? <==> forall i :: 0 <= i < |table| ==> !StartsWith(name, table[i].0)
    ensures r.Some? ==> exists i :: 0 <= i < |table| && StartsWith(name, table[i].0) && r.value == table[i].1
                                 && forall j :: 0 <= j < i ==> !StartsWith(name, table[j].0)
  {
    if table == [] then None
    else if StartsWith(name, table[0].0) then Some(table[0].1)
    else
      var r := FirstMatch(table[1..], name);
      if r.Some? then
        var i :| 0 <= i < |table[1..]| && StartsWith(name, table[1..][i].0) && r.value == table[1..][i].1
                 && forall j :: 0 <= j < i ==> !StartsWith(name, table[1..][j].0);
        assert table[1..][i] == table[i + 1];
        assert forall j :: 0 <= j < i + 1 ==> !StartsWith(name, table[j].0) by {
          forall j | 0 < j < i + 1 ensures !StartsWith(name, table[j].0) {
            assert table[j] == table[1..][j - 1];
          }
        }
        r
      else r
  }

  /** The recipe `findImplementation` selects for the operating-system name `osName`. */
  function Selected(osName: string): (c: DfCommand)
    ensures c != DefaultDfCommand ==>
              exists i :: 0 <= i < |IMPLEMENTATIONS| && StartsWith(ToLowerCase(osName), IMPLEMENTATIONS[i].0)
                          && c == IMPLEMENTATIONS[i].1
  {
    match FirstMatch(IMPLEMENTATIONS, ToLowerCase(osName))
    case Some(c) => c
    case None => DefaultDfCommand
  }

  /**
   * `findImplementation`: walks `IMPLEMENTATIONS` in order and returns the first entry whose
   * key starts the lowercased name, or a fresh `DefaultDfCommand` when none does.
   */
  method FindImplementation(osName: string) returns (impl: DfCommand)
    ensures impl == Selected(osName)
    ensures (exists i :: 0 <= i < |IMPLEMENTATIONS| && StartsWith(ToLowerCase(osName), IMPLEMENTATIONS[i].0)
               && impl == IMPLEMENTATIONS[i].1
               && forall j :: 0 <= j < i ==> !StartsWith(ToLowerCase(osName), IMPLEMENTATIONS[j].0))
         || ((forall i :: 0 <= i < |IMPLEMENTATIONS| ==> !StartsWith(ToLowerCase(osName), IMPLEMENTATIONS[i].0))
               && impl == DefaultDfCommand)
  {
    var lower := ToLowerCase(osName);
    var n := 0;
    while n < |IMPLEMENTATIONS|
      invariant 0 <= n <= |IMPLEMENTATIONS|
      invariant forall j :: 0 <= j < n ==> !StartsWith(lower, IMPLEMENTATIONS[j].0)
      invariant FirstMatch(IMPLEMENTATIONS[n..], lower) == FirstMatch(IMPLEMENTATIONS, lower)
    {
      var (key, command) := IMPLEMENTATIONS[n];
      if StartsWith(lower, key) {
        return command;
      }
      assert IMPLEMENTATIONS[n..][1..] == IMPLEMENTATIONS[n + 1..];
      n := n + 1;
    }
    return DefaultDfCommand;
  }

  /** Number of lines the reader discards before the values line: `line - 1`, or none. */
  function Skipped(line: int): nat {
    if line > 1 then line - 1 else 0
  }

  /**
   * The base `DfCommand.get` on a given output: skip `line - 1` lines, read the next one
   * (the on-error text at end of stream), split it on runs of spaces and return column `column`.
   */
  function ReadValue(output: ProcessOutput, line: int, column: int, onError: string): (r: GetResult)
    ensures r.IndexOutOfBounds? ==> output.Stdout? && Skipped(line) < |output.lines|
    ensures r.Returned? && r.value != onError ==>
              output.Stdout? && Skipped(line) < |output.lines| && r.value in Split(output.lines[Skipped(line)])
  {
    match output
    case IoFailure => Returned(onError)
    case Stdout(lines) =>
      if Skipped(line) >= |lines| then Returned(onError)
      else
        var split := Split(lines[Skipped(line)]);
        if 1 <= column <= |split| then Returned(split[column - 1]) else IndexOutOfBounds
  }

  /**
   * `DfCommand.get`. The reader is an index into the output lines; `readLine` past the end
   * returns `null` and does not advance.
   */
  method Get(cmd: DfCommand, output: ProcessOutput, messages: Messages) returns (r: GetResult)
    ensures r == (if cmd == WindowsDfCommand then Returned(messages.notApplicable)
                  else ReadValue(output, cmd.Line(), cmd.Column(), messages.onError))
  {
    if cmd == WindowsDfCommand {
      return Returned(messages.notApplicable);
    }
    if output.IoFailure? {
      return Returned(messages.onError);
    }
    var lines := output.lines;
    var line, column := cmd.Line(), cmd.Column();
    var position := 0;
    var i := 1;
    while i < line
      invariant 1 <= i && (line >= 1 ==> i <= line)
      invariant position == if i - 1 <= |lines| then i - 1 else |lines|
    {
      if position < |lines| {
        position := position + 1;
      }
      i := i + 1;
    }
    if position >= |lines| {
      return Returned(messages.onError);
    }
    var values := lines[position];
    var split := Split(values);
    if column - 1 < 0 || column - 1 >= |split| {
      return IndexOutOfBounds;
    }
    return Returned(split[column - 1]);
  }

  /** What `getUsedInodesPercentage` returns on an agent named `osName` whose `df` gives `output`. */
  function UsedInodesPercentage(osName: string, output: ProcessOutput, messages: Messages): (r: GetResult)
    ensures r.IndexOutOfBounds? ==> output.Stdout? && |output.lines| >= 2
    ensures r.Returned? ==> r.value == messages.notApplicable || r.value == messages.onError || NoSpace(r.value)
  {
    var cmd := Selected(osName);
    if cmd == WindowsDfCommand then Returned(messages.notApplicable)
    else ReadValue(output, cmd.Line(), cmd.Column(), messages.onError)
  }

  /** `getUsedInodesPercentage`: `findImplementation().get()`. */
  method GetUsedInodesPercentage(osName: string, output: ProcessOutput, messages: Messages) returns (r: GetResult)
    ensures r == UsedInodesPercentage(osName, output, messages)
  {
    var impl := FindImplementation(osName);
    r := Get(impl, output, messages);
  }

  // ---------------------------------------------------------------------------
  // Selection
  // ---------------------------------------------------------------------------

  /** The entry at `k` is the first whose key starts `name`, so it is the one found. */
  lemma FirstMatchAt(table: seq<(string, DfCommand)>, name: string, k: nat)
    requires k < |table| && StartsWith(name, table[k].0)
    requires forall j :: 0 <= j < k ==> !StartsWith(name, table[j].0)
    ensures FirstMatch(table, name) == Some(table[k].1)
  {
    var r := FirstMatch(table, name);
    var i :| 0 <= i < |table| && StartsWith(name, table[i].0) && r.value == table[i].1
             && forall j :: 0 <= j < i ==> !StartsWith(name, table[j].0);
    assert i == k;
  }

  /** Two keys with different first letters cannot both start a name. */
  lemma FirstLetter(name: string, key: string)
    requires StartsWith(name, key) && key != ""
    ensures name[0] == key[0]
  {
    assert name[..|key|][0] == name[0];
  }

  /** The Windows recipe is chosen exactly for names starting with "windows" in any case. */
  lemma SelectedWindowsIff(osName: string)
    ensures Selected(osName) == WindowsDfCommand <==> StartsWith(ToLowerCase(osName), "windows")
  {
    var lower := ToLowerCase(osName);
    if StartsWith(lower, "windows") {
      FirstMatchAt(IMPLEMENTATIONS, lower, 0);
    }
  }

  /** The Linux recipe is chosen exactly for names starting with "linux" in any case. */
  lemma SelectedLinuxIff(osName: string)
    ensures Selected(osName) == LinuxDfCommand <==> StartsWith(ToLowerCase(osName), "linux")
  {
    var lower := ToLowerCase(osName);
    if StartsWith(lower, "linux") {
      FirstLetter(lower, "linux");
      assert !StartsWith(lower, "windows");
      FirstMatchAt(IMPLEMENTATIONS, lower, 1);
    }
  }

  /** Mac OS and FreeBSD share one recipe, chosen exactly for names starting with either key. */
  lemma SelectedMacOsIff(osName: string)
    ensures Selected(osName) == MacOsDfCommand
        <==> StartsWith(ToLowerCase(osName), "mac os") || StartsWith(ToLowerCase(osName), "freebsd")
  {
    var lower := ToLowerCase(osName);
    if StartsWith(lower, "mac os") {
      FirstLetter(lower, "mac os");
      assert !StartsWith(lower, "windows") && !StartsWith(lower, "linux");
      FirstMatchAt(IMPLEMENTATIONS, lower, 2);
    } else if StartsWith(lower, "freebsd") {
      FirstLetter(lower, "freebsd");
      assert !StartsWith(lower, "windows") && !StartsWith(lower, "linux");
      FirstMatchAt(IMPLEMENTATIONS, lower, 3);
    }
  }

  /** The AIX recipe is chosen exactly for names starting with "aix" in any case. */
  lemma SelectedAixIff(osName: string)
    ensures Selected(osName) == AixDfCommand <==> StartsWith(ToLowerCase(osName), "aix")
  {
    var lower := ToLowerCase(osName);
    if StartsWith(lower, "aix") {
      FirstLetter(lower, "aix");
      assert !StartsWith(lower, "windows") && !StartsWith(lower, "linux");
      assert !StartsWith(lower, "mac os") && !StartsWith(lower, "freebsd");
      FirstMatchAt(IMPLEMENTATIONS, lower, 4);
    }
  }

  /** The fallback recipe is chosen exactly when no key starts the lowercased name. */
  lemma SelectedDefaultIff(osName: string)
    ensures Selected(osName) == DefaultDfCommand
        <==> forall i :: 0 <= i < |IMPLEMENTATIONS| ==> !StartsWith(ToLowerCase(osName), IMPLEMENTATIONS[i].0)
  {
    var r := FirstMatch(IMPLEMENTATIONS, ToLowerCase(osName));
    if r.Some? {
      var i :| 0 <= i < |IMPLEMENTATIONS| && r.value == IMPLEMENTATIONS[i].1;
      assert r.value != DefaultDfCommand;
    }
  }

  /** The lowercased name gets the same recipe as the name itself. */
  lemma SelectedLowercased(osName: string)
    ensures Selected(ToLowerCase(osName)) == Selected(osName)
  {
    ToLowerCaseIdempotent(osName);
    SelectedIgnoresCase(ToLowerCase(osName), osName);
  }

  /** Selection ignores letter case. */
  lemma SelectedIgnoresCase(a: string, b: string)
    requires ToLowerCase(a) == ToLowerCase(b)
    ensures Selected(a) == Selected(b)
  {
  }

  /** The recipe each platform family gets: (command, values line, percentage column). */
  lemma SelectedRecipe(osName: string)
    ensures var c := Selected(osName);
            var lower := ToLowerCase(osName);
            var recipe := (c.Command(), c.Line(), c.Column());
            (StartsWith(lower, "windows") ==> recipe == (None, -1, -1))
            && (StartsWith(lower, "linux") ==> recipe == (Some("df -P -i ."), 2, 5))
            && (StartsWith(lower, "mac os") || StartsWith(lower, "freebsd") ==> recipe == (Some("df -i ."), 2, 8))
            && (StartsWith(lower, "aix") ==> recipe == (Some("df -i ."), 2, 6))
            && ((forall i :: 0 <= i < |IMPLEMENTATIONS| ==> !StartsWith(lower, IMPLEMENTATIONS[i].0))
                ==> recipe == (Some("df -i ."), 2, 5))
  {
    SelectedWindowsIff(osName);
    SelectedLinuxIff(osName);
    SelectedMacOsIff(osName);
    SelectedAixIff(osName);
    SelectedDefaultIff(osName);
  }

  /** "Mac OS X" gets the Mac OS recipe. */
  lemma SelectedMacOsX()
    ensures Selected("Mac OS X") == MacOsDfCommand
  {
    var mac := ToLowerCase("Mac OS X");
    assert mac[..6] == "mac os" by {
      assert mac[0] == 'm' && mac[1] == 'a' && mac[2] == 'c' && mac[3] == ' ' && mac[4] == 'o' && mac[5] == 's';
    }
    SelectedMacOsIff("Mac OS X");
  }

  /** "FreeBSD" gets the Mac OS recipe too. */
  lemma SelectedFreeBsd()
    ensures Selected("FreeBSD") == MacOsDfCommand
  {
    var bsd := ToLowerCase("FreeBSD");
    assert bsd == "freebsd" by {
      assert bsd[0] == 'f' && bsd[1] == 'r' && bsd[2] == 'e' && bsd[3] == 'e';
      assert bsd[4] == 'b' && bsd[5] == 's' && bsd[6] == 'd';
    }
    SelectedMacOsIff("FreeBSD");
  }

  /** "SunOS" matches no key and gets the fallback recipe. */
  lemma SelectedSunOs()
    ensures Selected("SunOS") == DefaultDfCommand
  {
    var sun := ToLowerCase("SunOS");
    assert sun[0] == 's';
    forall i | 0 <= i < |IMPLEMENTATIONS| ensures !StartsWith(sun, IMPLEMENTATIONS[i].0) {
      if StartsWith(sun, IMPLEMENTATIONS[i].0) {
        FirstLetter(sun, IMPLEMENTATIONS[i].0);
      }
    }
    SelectedDefaultIff("SunOS");
  }

  // ---------------------------------------------------------------------------
  // Reading the output
  // ---------------------------------------------------------------------------

  /** A Windows agent never looks at any output and answers the not-applicable text. */
  lemma WindowsIsNotApplicable(osName: string, output: ProcessOutput, messages: Messages)
    requires StartsWith(ToLowerCase(osName), "windows")
    ensures UsedInodesPercentage(osName, output, messages) == Returned(messages.notApplicable)
  {
    SelectedWindowsIff(osName);
  }

  /** An `IOException` on a non-Windows agent becomes the on-error text. */
  lemma IoFailureIsOnError(osName: string, messages: Messages)
    requires !StartsWith(ToLowerCase(osName), "windows")
    ensures UsedInodesPercentage(osName, IoFailure, messages) == Returned(messages.onError)
  {
    SelectedWindowsIff(osName);
  }

  /** Exactly `line - 1` lines are discarded; what follows the values line is never read. */
  lemma {:induction false} ReadValueSkipsHeader(header: seq<string>, row: string, rest: seq<string>, column: int, onError: string)
    ensures ReadValue(Stdout(header + [row] + rest), |header| + 1, column, onError)
         == (if 1 <= column <= |Split(row)| then Returned(Split(row)[column - 1]) else IndexOutOfBounds)
  {
    assert (header + [row] + rest)[|header|] == row;
  }

  /** Output shorter than `line` lines gives the on-error text. */
  lemma TruncatedOutputIsOnError(lines: seq<string>, line: int, column: int, onError: string)
    requires |lines| < line
    ensures ReadValue(Stdout(lines), line, column, onError) == Returned(onError)
  {
  }

  /**
   * Column `column` of a space-aligned values line after the header: a line starting with
   * spaces shifts the columns by one (its first token is empty); too few tokens throws.
   */
  lemma {:induction false} ReadValueAlignedRow(header: seq<string>, lead: nat, toks: seq<string>, gaps: seq<nat>, trail: nat,
                            rest: seq<string>, column: int, onError: string)
    requires |toks| >= 1 && |gaps| == |toks| - 1 && PlainTokens(toks)
    requires forall k :: 0 <= k < |gaps| ==> gaps[k] >= 1
    ensures var shift := if lead > 0 then 1 else 0;
            var row := Spaces(lead) + Aligned(toks, gaps) + Spaces(trail);
            ReadValue(Stdout(header + [row] + rest), |header| + 1, column, onError)
            == if 1 + shift <= column <= |toks| + shift then Returned(toks[column - 1 - shift])
               else if column == 1 then Returned("")
               else IndexOutOfBounds
  {
    var row := Spaces(lead) + Aligned(toks, gaps) + Spaces(trail);
    ReadValueSkipsHeader(header, row, rest, column, onError);
    SplitAligned(lead, toks, gaps, trail);
    if lead > 0 {
      assert Split(row) == [""] + toks;
    } else {
      assert Split(row) == toks;
    }
  }

  /**
   * A values line without tokens: an empty line has one empty column, a line of spaces has
   * none, so any other column throws.
   */
  lemma BlankValuesLine(header: seq<string>, n: nat, rest: seq<string>, column: int, onError: string)
    ensures ReadValue(Stdout(header + [Spaces(n)] + rest), |header| + 1, column, onError)
         == if n == 0 && column == 1 then Returned("") else IndexOutOfBounds
  {
    ReadValueSkipsHeader(header, Spaces(n), rest, column, onError);
    SplitBlank(n);
    if n == 0 {
      assert Spaces(n) == "";
    }
  }

  /** The values line of the Linux example below, as an aligned row. */
  lemma LinuxExampleRow()
    ensures Aligned(["/dev/sda1", "100", "8", "92", "8%", "/"], [1, 1, 1, 1, 1]) == "/dev/sda1 100 8 92 8% /"
  {
    assert Spaces(1) == " ";
  }

  /** On Linux the value is the fifth column of the second line of `df -P -i .`. */
  lemma LinuxReadsFifthColumn(osName: string, header: string, toks: seq<string>, gaps: seq<nat>,
                              rest: seq<string>, messages: Messages)
    requires StartsWith(ToLowerCase(osName), "linux")
    requires |toks| >= 5 && |gaps| == |toks| - 1 && PlainTokens(toks)
    requires forall k :: 0 <= k < |gaps| ==> gaps[k] >= 1
    ensures UsedInodesPercentage(osName, Stdout([header, Aligned(toks, gaps)] + rest), messages) == Returned(toks[4])
  {
    SelectedLinuxIff(osName);
    var row := Aligned(toks, gaps);
    var lines := [header] + [row] + rest;
    assert [header, row] + rest == lines;
    assert UsedInodesPercentage(osName, Stdout(lines), messages) == ReadValue(Stdout(lines), 2, 5, messages.onError);
    SplitAligned(0, toks, gaps, 0);
    assert Spaces(0) + row + Spaces(0) == row;
    ReadValueSkipsHeader([header], row, rest, 5, messages.onError);
  }

  /** A typical `df -P -i .` output on Linux yields its `IUse%` column. */
  lemma LinuxExample(messages: Messages)
    ensures UsedInodesPercentage("Linux", Stdout([
              "Filesystem Inodes IUsed IFree IUse% Mounted on",
              "/dev/sda1 100 8 92 8% /"]), messages)
         == Returned("8%")
  {
    LinuxIsSelected();
    LinuxExampleRow();
    LinuxReadsFifthColumn("Linux", "Filesystem Inodes IUsed IFree IUse% Mounted on",
      ["/dev/sda1", "100", "8", "92", "8%", "/"], [1, 1, 1, 1, 1], [], messages);
  }

  lemma LinuxIsSelected()
    ensures StartsWith(ToLowerCase("Linux"), "linux")
  {
    assert ToLowerCase("Linux") == "linux";
  }
}
