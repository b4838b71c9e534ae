/**
 * `InodesMonitor`: the configured threshold, the `Inodes` offline cause, and the rule that
 * turns an agent's inode-usage reading into a request to mark it offline or online.
 *
 * The agent (`Computer`) is reduced to what the rule reads of it, its current offline cause;
 * `markOffline` and `markOnline` become requests the rule returns, since what the host does
 * with them is not part of the model.
 */
module InodesMonitor {
  import opened Wrappers
  import opened Strings
  import DfRunner

  const DEFAULT_OFFLINE_THRESHOLD: string := "95%"

  // ---------------------------------------------------------------------------
  // parse
  // ---------------------------------------------------------------------------

  /** `s.matches("\\d?\\d%")`: the whole string is one or two ASCII digits followed by `%`. */
  predicate MatchesPercent(s: string)
    ensures MatchesPercent(s) <==> 2 <= |s| <= 3 && AllDigits(s[..|s| - 1]) && s[|s| - 1] == '%'
  {
    (|s| == 2 && IsDigit(s[0]) && s[1] == '%')
    || (|s| == 3 && IsDigit(s[0]) && IsDigit(s[1]) && s[2] == '%')
  }

  /** `java.text.ParseException(text, errorOffset)`. */
  datatype ParseException = ParseException(text: string, errorOffset: int)

  /**
   * `parse`: a string of the form `\d?\d%` gives the integer before the `%`;
   * anything else throws `ParseException(threshold, 0)`.
   */
  function Parse(threshold: string): (r: Result<int, ParseException>)
    ensures r.Ok? <==> MatchesPercent(threshold)
    ensures r.Ok? ==> 0 <= r.value <= 99
    ensures r.Err? ==> r.error == ParseException(threshold, 0)
  {
    if !MatchesPercent(threshold) then Err(ParseException(threshold, 0))
    else
      var digits := threshold[..|threshold| - 1];
      DecimalValueShort(digits);
      Ok(DecimalValue(digits))
  }

  /** The value of a one-digit and of a two-digit match. */
  lemma ParseValue(s: string)
    requires MatchesPercent(s)
    ensures |s| == 2 ==> Parse(s) == Ok(DigitValue(s[0]))
    ensures |s| == 3 ==> Parse(s) == Ok(DigitValue(s[0]) * 10 + DigitValue(s[1]))
  {
    var digits := s[..|s| - 1];
    DecimalValueShort(digits);
  }

  /**
   * The strings `parse` accepts with value `n` are exactly `Integer.toString(n) + "%"` and,
   * for a single digit, the same with one leading zero; so every result lies in 0..99.
   */
  lemma ParseIff(s: string, n: int)
    ensures Parse(s) == Ok(n)
        <==> 0 <= n <= 99 && (s == NatToString(n) + "%" || (n < 10 && s == "0" + NatToString(n) + "%"))
  {
    if Parse(s) == Ok(n) {
      ParseValue(s);
      DigitCharOfValue(s[0]);
      if |s| == 2 {
        assert NatToString(n) == [s[0]];
        assert s == [s[0]] + "%";
      } else {
        DigitCharOfValue(s[1]);
        if s[0] == '0' {
          assert n == DigitValue(s[1]);
          assert NatToString(n) == [s[1]];
          assert s == "0" + [s[1]] + "%";
        } else {
          assert n / 10 == DigitValue(s[0]) && n % 10 == DigitValue(s[1]);
          assert NatToString(n) == [s[0]] + [s[1]];
          assert s == [s[0]] + [s[1]] + "%";
        }
      }
    }
    if 0 <= n <= 99 && s == NatToString(n) + "%" {
      var t := NatToString(n);
      assert s[..|s| - 1] == t;
      DecimalValueOfNatToString(n);
    }
    if 0 <= n < 10 && s == "0" + NatToString(n) + "%" {
      var t := NatToString(n);
      ParseValue(s);
      assert s[1] == t[0];
      DigitCharOfValue(s[1]);
    }
  }

  /** Every percentage 0..99 written by `Integer.toString` and suffixed with `%` parses back to itself. */
  lemma ParseRoundTrip(n: nat)
    requires n <= 99
    ensures Parse(NatToString(n) + "%") == Ok(n)
  {
    ParseIff(NatToString(n) + "%", n);
  }

  /** The documented examples: "5%" is a threshold, "5" and "100%" are not. */
  lemma ParseExamples()
    ensures Parse("5%") == Ok(5) && Parse("95%") == Ok(95) && Parse("05%") == Ok(5) && Parse("0%") == Ok(0)
    ensures Parse("5").Err? && Parse("100%").Err? && Parse("abc%").Err? && Parse("").Err? && Parse("%").Err?
  {
    ParseValue("5%");
    ParseValue("95%");
    ParseValue("05%");
    ParseValue("0%");
  }

  // ---------------------------------------------------------------------------
  // The monitor and its constructors
  // ---------------------------------------------------------------------------

  /** An `InodesMonitor`; its only state is the final threshold text. */
  datatype Monitor = Monitor(inodesPercentThreshold: string)

  /**
   * `InodesMonitor(String)`: `null` stands for the default threshold; the text is kept unchanged
   * when it parses, and the constructor throws the `ParseException` otherwise.
   */
  function NewMonitor(inodesPercentThreshold: Option<string>): (r: Result<Monitor, ParseException>)
    ensures var t := if inodesPercentThreshold.None? then DEFAULT_OFFLINE_THRESHOLD else inodesPercentThreshold.value;
            (r.Ok? <==> MatchesPercent(t))
            && (r.Ok? ==> r.value.inodesPercentThreshold == t)
            && (r.Err? ==> r.error == ParseException(t, 0))
  {
    var t := if inodesPercentThreshold.None? then DEFAULT_OFFLINE_THRESHOLD else inodesPercentThreshold.value;
    match Parse(t)
    case Err(e) => Err(e)
    case Ok(_) => Ok(Monitor(t))
  }

  /** `InodesMonitor()`: the default threshold, which parses to 95. */
  function DefaultMonitor(): (m: Monitor)
    ensures Parse(m.inodesPercentThreshold) == Ok(95)
  {
    ParseValue(DEFAULT_OFFLINE_THRESHOLD);
    Monitor(DEFAULT_OFFLINE_THRESHOLD)
  }

  /** Both constructors agree when no threshold is configured, and what they build always parses. */
  lemma ConstructedMonitorsParse(t: Option<string>)
    ensures NewMonitor(None) == Ok(DefaultMonitor())
    ensures NewMonitor(t).Ok? ==> Parse(NewMonitor(t).value.inodesPercentThreshold).Ok?
  {
    ParseValue(DEFAULT_OFFLINE_THRESHOLD);
  }

  // ---------------------------------------------------------------------------
  // The Inodes offline cause
  // ---------------------------------------------------------------------------

  /** A `Class<? extends NodeMonitor>`. */
  datatype NodeMonitorClass = NodeMonitorClass(name: string)

  const INODES_MONITOR_CLASS: NodeMonitorClass := NodeMonitorClass("org.jenkinsci.plugins.inodesnodemonitor.InodesMonitor")

  /** `InodesMonitor.Inodes`: the reading and threshold it was built from, and who triggered it. */
  class Inodes {
    var trigger: Option<NodeMonitorClass>
    const usage: Option<string>
    const threshold: string
    var triggered: bool

    constructor (usage: Option<string>, threshold: string)
      ensures this.usage == usage && this.threshold == threshold
      ensures trigger == None && !triggered
    {
      this.usage := usage;
      this.threshold := threshold;
      trigger := None;
      triggered := false;
    }

    /** `setTriggered`: records the trigger and the flag; `usage` and `threshold` are final. */
    method SetTriggered(trigger: NodeMonitorClass, triggered: bool)
      modifies this
      ensures this.trigger == Some(trigger) && this.triggered == triggered
    {
      this.trigger := Some(trigger);
      this.triggered := triggered;
    }
  }

  // ---------------------------------------------------------------------------
  // data
  // ---------------------------------------------------------------------------

  /** What `computer.getOfflineCause()` is: `null`, an `Inodes`, or any other cause. */
  datatype OfflineCause = NoCause | InodesCause | OtherCause

  /** What one `data` call does to the agent, or the exception it throws. */
  datatype Outcome = Unchanged | RequestOffline | RequestOnline | IllegalState

  /**
   * The decision `data` takes on `reading`, the value cached for the agent, given the
   * agent's current offline cause and the not-applicable text.
   */
  function Decide(monitor: Monitor, reading: Option<string>, cause: OfflineCause, notApplicable: string): (r: Outcome)
    ensures r == IllegalState
        <==> reading.Some? && !Contains(reading.value, notApplicable)
             && (!MatchesPercent(reading.value) || !MatchesPercent(monitor.inodesPercentThreshold))
  {
    if reading.None? || Contains(reading.value, notApplicable) then Unchanged
    else
      match Parse(reading.value)
      case Err(_) => IllegalState
      case Ok(current) =>
        match Parse(monitor.inodesPercentThreshold)
        case Err(_) => IllegalState
        case Ok(threshold) =>
          if current >= threshold then RequestOffline
          else if cause == InodesCause then RequestOnline
          else Unchanged
  }

  /**
   * `data`: builds the `Inodes` record for `reading`, marks it triggered by this monitor when
   * the reading reaches the threshold, and says which of `markOffline`/`markOnline` it calls.
   * On `IllegalState` the call throws and the record is discarded.
   */
  method Data(monitor: Monitor, reading: Option<string>, cause: OfflineCause, messages: DfRunner.Messages)
    returns (inodes: Inodes, outcome: Outcome)
    ensures fresh(inodes)
    ensures inodes.usage == reading && inodes.threshold == monitor.inodesPercentThreshold
    ensures outcome == Decide(monitor, reading, cause, messages.notApplicable)
    ensures inodes.triggered <==> outcome == RequestOffline
    ensures inodes.trigger == if outcome == RequestOffline then Some(INODES_MONITOR_CLASS) else None
  {
    inodes := new Inodes(reading, monitor.inodesPercentThreshold);
    if reading.None? || Contains(reading.value, messages.notApplicable) {
      return inodes, Unchanged;
    }
    var current := Parse(reading.value);
    if current.Err? {
      return inodes, IllegalState;
    }
    var threshold := Parse(monitor.inodesPercentThreshold);
    if threshold.Err? {
      return inodes, IllegalState;
    }
    if current.value >= threshold.value {
      inodes.SetTriggered(INODES_MONITOR_CLASS, true);
      outcome := RequestOffline;
    } else if cause == InodesCause {
      outcome := RequestOnline;
    } else {
      outcome := Unchanged;
    }
  }

  // ---------------------------------------------------------------------------
  // Properties of the decision
  // ---------------------------------------------------------------------------

  /** No reading, or a not-applicable one, never moves the agent. */
  lemma NoDataLeavesAgentAlone(monitor: Monitor, reading: Option<string>, cause: OfflineCause, notApplicable: string)
    requires reading.None? || Contains(reading.value, notApplicable)
    ensures Decide(monitor, reading, cause, notApplicable) == Unchanged
  {
  }

  /** `markOffline` is requested exactly when a readable reading reaches the threshold (inclusive). */
  lemma RequestOfflineIff(monitor: Monitor, reading: Option<string>, cause: OfflineCause, notApplicable: string)
    ensures Decide(monitor, reading, cause, notApplicable) == RequestOffline
        <==> reading.Some? && !Contains(reading.value, notApplicable)
             && Parse(reading.value).Ok? && Parse(monitor.inodesPercentThreshold).Ok?
             && Parse(reading.value).value >= Parse(monitor.inodesPercentThreshold).value
  {
  }

  /** `markOnline` is requested exactly when a readable reading is below the threshold and the agent is offline because of an `Inodes`. */
  lemma RequestOnlineIff(monitor: Monitor, reading: Option<string>, cause: OfflineCause, notApplicable: string)
    ensures Decide(monitor, reading, cause, notApplicable) == RequestOnline
        <==> reading.Some? && !Contains(reading.value, notApplicable)
             && Parse(reading.value).Ok? && Parse(monitor.inodesPercentThreshold).Ok?
             && Parse(reading.value).value < Parse(monitor.inodesPercentThreshold).value
             && cause == InodesCause
  {
  }

  /** An offline cause set by anything else than this monitor is never cleared. */
  lemma ForeignCauseNeverCleared(monitor: Monitor, reading: Option<string>, cause: OfflineCause, notApplicable: string)
    requires cause != InodesCause
    ensures Decide(monitor, reading, cause, notApplicable) != RequestOnline
  {
  }

  /** Whether the agent goes offline does not depend on why it may already be offline. */
  lemma OfflineIgnoresCause(monitor: Monitor, reading: Option<string>, c1: OfflineCause, c2: OfflineCause, notApplicable: string)
    ensures Decide(monitor, reading, c1, notApplicable) == RequestOffline
        <==> Decide(monitor, reading, c2, notApplicable) == RequestOffline
  {
  }

  /**
   * For a monitor built by either constructor the only exception is an unparsable reading:
   * `IllegalStateException` is thrown exactly for a present, applicable reading outside `\d?\d%`.
   */
  lemma IllegalStateIff(t: Option<string>, reading: Option<string>, cause: OfflineCause, notApplicable: string)
    requires NewMonitor(t).Ok?
    ensures Decide(NewMonitor(t).value, reading, cause, notApplicable) == IllegalState
        <==> reading.Some? && !Contains(reading.value, notApplicable) && !MatchesPercent(reading.value)
  {
    ConstructedMonitorsParse(t);
  }

  /** The comparison is inclusive: with the default threshold, 95% takes the agent offline and 94% does not. */
  lemma ThresholdIsInclusive(cause: OfflineCause, notApplicable: string)
    requires !Contains("95%", notApplicable) && !Contains("94%", notApplicable)
    ensures Decide(DefaultMonitor(), Some("95%"), cause, notApplicable) == RequestOffline
    ensures Decide(DefaultMonitor(), Some("94%"), cause, notApplicable)
         == if cause == InodesCause then RequestOnline else Unchanged
  {
    ParseValue("95%");
    ParseValue("94%");
  }

  /**
   * A not-applicable text holding some character other than a digit or `%` (such as "N/A")
   * never masks a percentage: a well-formed reading is always compared with a well-formed threshold.
   */
  lemma PercentReadingIsCompared(monitor: Monitor, reading: string, cause: OfflineCause, notApplicable: string)
    requires MatchesPercent(reading) && MatchesPercent(monitor.inodesPercentThreshold)
    requires exists j :: 0 <= j < |notApplicable| && !IsDigit(notApplicable[j]) && notApplicable[j] != '%'
    ensures Decide(monitor, Some(reading), cause, notApplicable)
         == if Parse(reading).value >= Parse(monitor.inodesPercentThreshold).value then RequestOffline
            else if cause == InodesCause then RequestOnline
            else Unchanged
  {
    ContainsIff(reading, notApplicable);
  }

  /** The sentinel "N/A" masks no percentage reading. */
  lemma NotApplicableSentinel(monitor: Monitor, reading: string)
    requires MatchesPercent(reading) && MatchesPercent(monitor.inodesPercentThreshold)
    ensures Decide(monitor, Some(reading), InodesCause, "N/A")
         == if Parse(reading).value < Parse(monitor.inodesPercentThreshold).value then RequestOnline
            else RequestOffline
  {
    assert !IsDigit("N/A"[0]) && "N/A"[0] != '%';
    PercentReadingIsCompared(monitor, reading, InodesCause, "N/A");
  }

  /**
   * A completely full file system, which `df` prints as "100%", does not match `\d?\d%`:
   * `data` throws `IllegalStateException` instead of taking the agent offline.
   */
  lemma FullFileSystemIsIllegalState(monitor: Monitor, cause: OfflineCause, notApplicable: string)
    requires !Contains("100%", notApplicable)
    ensures Decide(monitor, Some("100%"), cause, notApplicable) == IllegalState
  {
  }

  // ---------------------------------------------------------------------------
  // Readings produced by DfRunner
  // ---------------------------------------------------------------------------

  /** A Windows agent's reading is the not-applicable text, so its state is never touched. */
  lemma WindowsAgentUnchanged(monitor: Monitor, osName: string, output: DfRunner.ProcessOutput,
                              cause: OfflineCause, messages: DfRunner.Messages)
    requires StartsWith(ToLowerCase(osName), "windows")
    ensures DfRunner.UsedInodesPercentage(osName, output, messages).Returned?
    ensures var reading := DfRunner.UsedInodesPercentage(osName, output, messages).value;
            Decide(monitor, Some(reading), cause, messages.notApplicable) == Unchanged
  {
    DfRunner.WindowsIsNotApplicable(osName, output, messages);
    ContainsItself(messages.notApplicable);
  }

  /**
   * The on-error text leaves the agent alone only if it contains the not-applicable text;
   * otherwise, unless it happens to read like a percentage, `data` throws.
   */
  lemma OnErrorReading(monitor: Monitor, cause: OfflineCause, messages: DfRunner.Messages)
    ensures Contains(messages.onError, messages.notApplicable)
        ==> Decide(monitor, Some(messages.onError), cause, messages.notApplicable) == Unchanged
    ensures !Contains(messages.onError, messages.notApplicable) && !MatchesPercent(messages.onError)
        ==> Decide(monitor, Some(messages.onError), cause, messages.notApplicable) == IllegalState
  {
  }

  /**
   * On a Linux agent whose file system is full, the fifth column of `df -P -i .` reads "100%",
   * and the next `data` on that reading throws rather than taking the agent offline.
   */
  lemma FullLinuxAgentThrows(monitor: Monitor, osName: string, header: string, toks: seq<string>, gaps: seq<nat>,
                             rest: seq<string>, cause: OfflineCause, messages: DfRunner.Messages)
    requires StartsWith(ToLowerCase(osName), "linux")
    requires |toks| >= 5 && |gaps| == |toks| - 1 && PlainTokens(toks) && toks[4] == "100%"
    requires forall k :: 0 <= k < |gaps| ==> gaps[k] >= 1
    requires !Contains("100%", messages.notApplicable)
    ensures var reading := DfRunner.UsedInodesPercentage(osName, DfRunner.Stdout([header, Aligned(toks, gaps)] + rest), messages);
            reading == DfRunner.Returned("100%")
            && Decide(monitor, Some(reading.value), cause, messages.notApplicable) == IllegalState
  {
    DfRunner.LinuxReadsFifthColumn(osName, header, toks, gaps, rest, messages);
    FullFileSystemIsIllegalState(monitor, cause, messages.notApplicable);
  }
}
