/**
 * Classification of a raw log line (origin, timestamp, severity), the splitting
 * of pasted text into entries, and the rule engine that lets user rules
 * override a classification.
 *
 * Each fixed regular expression of the classifier is given twice: as a
 * declarative `...Match`/`...At` predicate saying where the expression matches,
 * and as the scan the classifier runs; the scans' contracts tie the two.
 */
module LogParser {
  import opened Wrappers
  import opened Text
  import opened LogAnalyzer
  import opened RuleManager

  // ===========================================================================
  // Fixed patterns
  // ===========================================================================

  /** `U[A-Z0-9]{2,}` with the case-insensitive flag matches at `k`. */
  predicate ApTokenAt(s: string, k: nat) {
    k + 3 <= |s| && (s[k] == 'U' || s[k] == 'u') && IsAlnum(s[k + 1]) && IsAlnum(s[k + 2])
  }

  /** `U[A-Z0-9]{2,}` matches at `k` or later. */
  function ApTokenFrom(s: string, k: nat): (b: bool)
    decreases |s| - k
    ensures b <==> exists j: nat :: k <= j && ApTokenAt(s, j)
  {
    if k + 3 > |s| then false else ApTokenAt(s, k) || ApTokenFrom(s, k + 1)
  }

  function HasApToken(s: string): (b: bool)
    ensures b <==> exists k: nat :: ApTokenAt(s, k)
  {
    ApTokenFrom(s, 0)
  }

  /** `\d{2}:\d{2}:\d{2}` matches at `k`. */
  predicate ClockAt(s: string, k: nat) {
    && k + 8 <= |s|
    && IsDigit(s[k]) && IsDigit(s[k + 1]) && s[k + 2] == ':'
    && IsDigit(s[k + 3]) && IsDigit(s[k + 4]) && s[k + 5] == ':'
    && IsDigit(s[k + 6]) && IsDigit(s[k + 7])
  }

  /** `\d{4}-\d{2}-\d{2}[T\s]\d{2}:\d{2}:\d{2}` matches at `k` (always 19 characters). */
  predicate IsoAt(s: string, k: nat) {
    && k + 19 <= |s|
    && RunAt(s, k, k + 4, IsDigit) && s[k + 4] == '-'
    && RunAt(s, k + 5, k + 7, IsDigit) && s[k + 7] == '-'
    && RunAt(s, k + 8, k + 10, IsDigit)
    && (s[k + 10] == 'T' || IsSpace(s[k + 10]))
    && ClockAt(s, k + 11)
  }

  /**
   * `\w{3}\s+\d{1,2}\s+\d{2}:\d{2}:\d{2}` matches from `k` with its parts split at
   * `b`, `c` and `d`: the word characters are `s[k..k+3]`, the first white-space
   * run `s[k+3..b]`, the day `s[b..c]`, the second white-space run `s[c..d]`, and
   * the clock starts at `d`.
   */
  ghost predicate SyslogDateSplit(s: string, k: nat, b: nat, c: nat, d: nat) {
    && RunAt(s, k, k + 3, IsWordChar)
    && k + 3 < b && RunAt(s, k + 3, b, IsSpace)
    && b < c <= b + 2 && RunAt(s, b, c, IsDigit)
    && c < d && RunAt(s, c, d, IsSpace)
    && ClockAt(s, d)
  }

  /** The syslog date expression matches exactly `s[k..end]`. */
  ghost predicate SyslogDateMatch(s: string, k: nat, end: nat) {
    k <= end <= |s| && exists b: nat, c: nat, d: nat :: SyslogDateSplit(s, k, b, c, d) && end == d + 8
  }

  /** The split found by taking each run as long as it goes: the only one a match can have. */
  ghost predicate GreedySplit(s: string, k: nat, b: nat, c: nat, d: nat) {
    && k + 3 <= |s|
    && b == k + 3 + Span(s, k + 3, IsSpace)
    && c == b + Span(s, b, IsDigit)
    && d == c + Span(s, c, IsSpace)
  }

  /** The end of the greedy split from `k`, when its parts have the sizes the expression asks for. */
  function GreedyEnd(s: string, k: nat): Option<nat> {
    if k + 3 > |s| || !RunAt(s, k, k + 3, IsWordChar) then None
    else
      var b := k + 3 + Span(s, k + 3, IsSpace);
      var c := b + Span(s, b, IsDigit);
      var d := c + Span(s, c, IsSpace);
      EndFrom(s, k, b, c, d)
  }

  /** The end of the match whose runs end at `b`, `c` and `d`, when the runs have the sizes the expression asks for. */
  function EndFrom(s: string, k: nat, b: nat, c: nat, d: nat): Option<nat> {
    if k + 3 < b && b < c <= b + 2 && c < d && ClockAt(s, d) then Some(d + 8) else None
  }

  /**
   * Where the syslog date expression starting at `k` ends. Every run is followed
   * by a character the run's class excludes, so the match from `k` is unique.
   */
  function SyslogDateEnd(s: string, k: nat): (r: Option<nat>)
    ensures r.Some? ==> SyslogDateMatch(s, k, r.value)
    ensures forall end: nat {:trigger SyslogDateMatch(s, k, end)} :: SyslogDateMatch(s, k, end) ==> r == Some(end)
  {
    GreedyEndMatches(s, k);
    GreedyEnd(s, k)
  }

  lemma GreedyEndMatches(s: string, k: nat)
    ensures GreedyEnd(s, k).Some? ==> SyslogDateMatch(s, k, GreedyEnd(s, k).value)
    ensures forall end: nat {:trigger SyslogDateMatch(s, k, end)} :: SyslogDateMatch(s, k, end) ==> GreedyEnd(s, k) == Some(end)
  {
    if k + 3 > |s| || !RunAt(s, k, k + 3, IsWordChar) {
      assert GreedyEnd(s, k) == None;
      NoSyslogDateWithoutWord(s, k);
    } else {
      var b := k + 3 + Span(s, k + 3, IsSpace);
      var c := b + Span(s, b, IsDigit);
      var d := c + Span(s, c, IsSpace);
      assert GreedyEnd(s, k) == EndFrom(s, k, b, c, d);
      GreedySplitSound(s, k, b, c, d);
      GreedySplitComplete(s, k, b, c, d);
    }
  }

  /** When its runs have the sizes the expression asks for, the greedy split is a match. */
  lemma GreedySplitSound(s: string, k: nat, b: nat, c: nat, d: nat)
    requires RunAt(s, k, k + 3, IsWordChar) && GreedySplit(s, k, b, c, d)
    ensures EndFrom(s, k, b, c, d).Some? ==> SyslogDateMatch(s, k, d + 8)
  {
    SpanRun(s, k + 3, IsSpace);
    SpanRun(s, b, IsDigit);
    SpanRun(s, c, IsSpace);
    if EndFrom(s, k, b, c, d).Some? {
      assert SyslogDateSplit(s, k, b, c, d);
    }
  }

  /** Every match from `k` has the greedy split, so it ends where the greedy split does. */
  lemma GreedySplitComplete(s: string, k: nat, b: nat, c: nat, d: nat)
    requires GreedySplit(s, k, b, c, d)
    ensures forall end: nat {:trigger SyslogDateMatch(s, k, end)} :: SyslogDateMatch(s, k, end) ==> EndFrom(s, k, b, c, d) == Some(end)
  {
    SplitIsGreedy(s, k, b, c, d);
    forall end: nat | SyslogDateMatch(s, k, end) ensures EndFrom(s, k, b, c, d) == Some(end) {
      var b': nat, c': nat, d': nat :| SyslogDateSplit(s, k, b', c', d') && end == d' + 8;
    }
  }

  /** The syslog date expression starts with three word characters. */
  lemma NoSyslogDateWithoutWord(s: string, k: nat)
    requires k + 3 > |s| || !RunAt(s, k, k + 3, IsWordChar)
    ensures forall end: nat :: !SyslogDateMatch(s, k, end)
  {
    assert forall b: nat, c: nat, d: nat :: !SyslogDateSplit(s, k, b, c, d);
  }

  lemma DigitNotSpace(ch: char)
    requires IsDigit(ch)
    ensures !IsSpace(ch)
  {
  }

  /** Any split of a syslog date from `k` is the greedy one. */
  lemma SplitIsGreedy(s: string, k: nat, b0: nat, c0: nat, d0: nat)
    requires GreedySplit(s, k, b0, c0, d0)
    ensures forall b: nat, c: nat, d: nat :: SyslogDateSplit(s, k, b, c, d) ==> b == b0 && c == c0 && d == d0
  {
    forall b: nat, c: nat, d: nat | SyslogDateSplit(s, k, b, c, d)
      ensures b == b0 && c == c0 && d == d0
    {
      assert IsDigit(s[b]);
      DigitNotSpace(s[b]);
      SpanExact(s, k + 3, b, IsSpace);
      assert IsSpace(s[c]) && !IsDigit(s[c]);
      SpanExact(s, b, c, IsDigit);
      assert IsDigit(s[d]);
      DigitNotSpace(s[d]);
      SpanExact(s, c, d, IsSpace);
    }
  }

  /** `\[.*\]` matches from the `[` at `i` to the `]` at `j`; `.` does not cross a line terminator. */
  ghost predicate BracketsAt(s: string, i: nat, j: nat) {
    i < j < |s| && s[i] == '[' && s[j] == ']' && forall m :: i < m < j ==> !IsLineTerminator(s[m])
  }

  /** `s[j]` ends what `.*` can cover: a `]` or a line terminator. */
  predicate Closes(s: string, j: nat) {
    j < |s| && (s[j] == ']' || IsLineTerminator(s[j]))
  }

  /** The first `]` or line terminator at position `j` or later. */
  function CloseFrom(s: string, j: nat): (r: Option<nat>)
    decreases |s| - j
    ensures r.Some? ==> j <= r.value < |s| && Closes(s, r.value)
    ensures r.Some? ==> forall m :: j <= m < r.value ==> !Closes(s, m)
    ensures r.None? ==> forall m :: j <= m < |s| ==> !Closes(s, m)
  {
    if j >= |s| then None
    else if Closes(s, j) then Some(j)
    else CloseFrom(s, j + 1)
  }

  /** A `[` at `i` closed by a `]` before any line terminator. */
  predicate OpensAt(s: string, i: nat) {
    i < |s| && s[i] == '[' && var close := CloseFrom(s, i + 1); close.Some? && s[close.value] == ']'
  }

  lemma OpensAtIff(s: string, i: nat)
    ensures OpensAt(s, i) <==> exists j: nat :: BracketsAt(s, i, j)
  {
    var close := CloseFrom(s, i + 1);
    if OpensAt(s, i) {
      assert forall m :: i < m < close.value ==> !IsLineTerminator(s[m]) by {
        forall m | i < m < close.value ensures !IsLineTerminator(s[m]) {
          assert !Closes(s, m);
        }
      }
      assert BracketsAt(s, i, close.value);
    }
    if j: nat :| BracketsAt(s, i, j) {
      assert Closes(s, j);
      assert close.Some?;
      if close.value < j {
        assert !IsLineTerminator(s[close.value]);
      }
    }
  }

  /** `\[.*\]` matches from a `[` at position `i` or later. */
  function BracketsFrom(s: string, i: nat): (b: bool)
    decreases |s| - i
    ensures b <==> exists a: nat, j: nat :: i <= a && BracketsAt(s, a, j)
  {
    OpensAtIff(s, i);
    if i >= |s| then false else OpensAt(s, i) || BracketsFrom(s, i + 1)
  }

  function HasBrackets(s: string): (b: bool)
    ensures b <==> exists i: nat, j: nat :: BracketsAt(s, i, j)
  {
    BracketsFrom(s, 0)
  }

  // ===========================================================================
  // parseLogSource
  // ===========================================================================

  ghost predicate OpnsenseMarked(s: string) {
    Contains(s, "filterlog") || Contains(s, "opnsense") || Contains(s, "pf:")
  }

  ghost predicate UnifiMarked(s: string) {
    (exists k: nat :: ApTokenAt(s, k)) || Contains(s, "unifi") || Contains(s, "hostapd")
  }

  /** A syslog date at the very start, a kernel or systemd mark, or a bracketed part. */
  ghost predicate LinuxMarked(s: string) {
    || (exists end: nat :: SyslogDateMatch(s, 0, end))
    || Contains(s, "kernel:") || Contains(s, "systemd")
    || (exists i: nat, j: nat :: BracketsAt(s, i, j))
  }

  /** The origin of a line: the first family whose marks it carries, in the order OPNsense, UniFi, Linux. */
  function ParseLogSource(line: string): (r: Source)
    ensures r == Opnsense <==> OpnsenseMarked(line)
    ensures r == Unifi <==> !OpnsenseMarked(line) && UnifiMarked(line)
    ensures r == Linux <==> !OpnsenseMarked(line) && !UnifiMarked(line) && LinuxMarked(line)
    ensures r == Unknown <==> !OpnsenseMarked(line) && !UnifiMarked(line) && !LinuxMarked(line)
  {
    if Includes(line, "filterlog") || Includes(line, "opnsense") || Includes(line, "pf:") then
      Opnsense
    else if HasApToken(line) || Includes(line, "unifi") || Includes(line, "hostapd") then
      Unifi
    else if SyslogDateEnd(line, 0).Some? || Includes(line, "kernel:") || Includes(line, "systemd")
      || HasBrackets(line)
    then
      Linux
    else
      Unknown
  }

  // ===========================================================================
  // parseTimestamp
  // ===========================================================================

  ghost predicate HasIso(s: string) { exists k: nat :: IsoAt(s, k) }

  ghost predicate HasSyslogDate(s: string) { exists k: nat, end: nat :: SyslogDateMatch(s, k, end) }

  /** Some timestamp expression matches the line. */
  ghost predicate HasTimestamp(s: string) { HasIso(s) || HasSyslogDate(s) || ClockAt(s, 0) }

  /** Where the first ISO date-time at position `k` or later starts. */
  function IsoFrom(line: string, k: nat): (r: Option<nat>)
    decreases |line| - k
    ensures r.Some? ==> k <= r.value && IsoAt(line, r.value)
    ensures r.Some? ==> forall j: nat :: k <= j < r.value ==> !IsoAt(line, j)
    ensures r.None? ==> forall j: nat :: k <= j ==> !IsoAt(line, j)
  {
    if k >= |line| then None
    else if IsoAt(line, k) then Some(k)
    else IsoFrom(line, k + 1)
  }

  /** Where the leftmost ISO date-time starts. */
  function LeftmostIso(line: string): (r: Option<nat>)
    ensures r.Some? <==> HasIso(line)
    ensures r.Some? ==> IsoAt(line, r.value) && forall j: nat :: j < r.value ==> !IsoAt(line, j)
  {
    IsoFrom(line, 0)
  }

  /** Where the first syslog date at position `k` or later starts and ends. */
  function SyslogFrom(line: string, k: nat): (r: Option<(nat, nat)>)
    decreases |line| - k
    ensures r.Some? ==> k <= r.value.0 < |line| && GreedyEnd(line, r.value.0) == Some(r.value.1)
    ensures r.Some? ==> forall j :: k <= j < r.value.0 ==> GreedyEnd(line, j).None?
    ensures r.None? ==> forall j :: k <= j < |line| ==> GreedyEnd(line, j).None?
  {
    if k >= |line| then None
    else match GreedyEnd(line, k)
      case Some(e) => Some((k, e))
      case None => SyslogFrom(line, k + 1)
  }

  /** Where the leftmost syslog date starts and ends. */
  function LeftmostSyslog(line: string): (r: Option<(nat, nat)>)
    ensures r.Some? <==> HasSyslogDate(line)
    ensures r.Some? ==> SyslogDateMatch(line, r.value.0, r.value.1)
    ensures r.Some? ==> forall j: nat, e: nat :: j < r.value.0 ==> !SyslogDateMatch(line, j, e)
  {
    SyslogFromMatches(line);
    SyslogFrom(line, 0)
  }

  /** The scan finds the leftmost position where the syslog date expression matches. */
  lemma SyslogFromMatches(line: string)
    ensures var r := SyslogFrom(line, 0);
      && (r.Some? <==> HasSyslogDate(line))
      && (r.Some? ==> SyslogDateMatch(line, r.value.0, r.value.1))
      && (r.Some? ==> forall j: nat, e: nat :: j < r.value.0 ==> !SyslogDateMatch(line, j, e))
  {
    var r := SyslogFrom(line, 0);
    var bound := if r.Some? then r.value.0 else |line|;
    forall j: nat, e: nat | j < bound ensures !SyslogDateMatch(line, j, e) {
      GreedyEndMatches(line, j);
    }
    if r.Some? {
      GreedyEndMatches(line, r.value.0);
    } else {
      forall j: nat, e: nat | |line| <= j ensures !SyslogDateMatch(line, j, e) {
        NoSyslogDateWithoutWord(line, j);
      }
    }
  }

  /**
   * The span of the timestamp in a line: the leftmost ISO date-time, else the
   * leftmost syslog date, else a clock at the very start.
   */
  function TimestampSpan(line: string): (r: Option<(nat, nat)>)
    ensures r.Some? <==> HasTimestamp(line)
    ensures r.Some? ==> r.value.0 <= r.value.1 <= |line|
    ensures HasIso(line) ==> r == Some((LeftmostIso(line).value, LeftmostIso(line).value + 19))
    ensures !HasIso(line) && HasSyslogDate(line) ==> r == LeftmostSyslog(line)
    ensures !HasIso(line) && !HasSyslogDate(line) && ClockAt(line, 0) ==> r == Some((0, 8))
  {
    var iso := LeftmostIso(line);
    if iso.Some? then Some((iso.value, iso.value + 19))
    else
      var sys := LeftmostSyslog(line);
      if sys.Some? then sys
      else if ClockAt(line, 0) then Some((0, 8))
      else None
  }

  /**
   * The timestamp of a line, copied from it at the span `TimestampSpan` finds;
   * when there is none, `now`, the current time the caller supplies.
   */
  function ParseTimestamp(line: string, now: string): (r: string)
    ensures HasTimestamp(line) ==>
      var (k, end) := TimestampSpan(line).value; SubstringAt(line, k, r) && |r| == end - k
    ensures !HasTimestamp(line) ==> r == now
  {
    match TimestampSpan(line)
    case Some((k, end)) => line[k..end]
    case None => now
  }

  // ===========================================================================
  // detectSeverity
  // ===========================================================================

  const CriticalWords: seq<string> := ["critical", "fatal", "panic", "emergency", "failed", "error", "denied", "blocked"]
  const WarningWords: seq<string> := ["warning", "warn", "alert", "timeout", "retry"]
  const InfoWords: seq<string> := ["info", "notice", "debug"]

  /** `\b(w1|w2|...)\b` matches somewhere in `s`. */
  ghost predicate MentionsWord(s: string, words: seq<string>) {
    exists k: nat, j :: 0 <= j < |words| && WholeWordAt(s, k, words[j])
  }

  /** Some alternative of `\b(w1|w2|...)\b` matches at `k`. */
  function WordAmongAt(s: string, k: nat, words: seq<string>): (b: bool)
    ensures b <==> exists j :: 0 <= j < |words| && WholeWordAt(s, k, words[j])
  {
    if words == [] then false
    else
      var rest := WordAmongAt(s, k, words[1..]);
      assert forall j :: 1 <= j < |words| ==> words[j] == words[1..][j - 1];
      WholeWordAt(s, k, words[0]) || rest
  }

  /** Some alternative of `\b(w1|w2|...)\b` matches at position `k` or later. */
  function MentionsFrom(s: string, words: seq<string>, k: nat): (b: bool)
    decreases |s| + 1 - k
    ensures b <==> exists j: nat, w :: k <= j && 0 <= w < |words| && WholeWordAt(s, j, words[w])
  {
    if k > |s| then false else WordAmongAt(s, k, words) || MentionsFrom(s, words, k + 1)
  }

  /** The search for `\b(w1|w2|...)\b`: some start position in `s`, the end included. */
  function Mentions(s: string, words: seq<string>): (b: bool)
    ensures b <==> MentionsWord(s, words)
  {
    MentionsFrom(s, words, 0)
  }

  /**
   * The severity of a line, from whole words of its lower-cased text: a critical
   * word wins over everything, a warning word over an info word.
   */
  function DetectSeverity(line: string): (r: Severity)
    ensures r == Critical <==> MentionsWord(Lower(line), CriticalWords)
    ensures r == Warning <==> !MentionsWord(Lower(line), CriticalWords) && MentionsWord(Lower(line), WarningWords)
    ensures r == Info <==>
      && !MentionsWord(Lower(line), CriticalWords) && !MentionsWord(Lower(line), WarningWords)
      && MentionsWord(Lower(line), InfoWords)
    ensures r == Normal <==>
      && !MentionsWord(Lower(line), CriticalWords) && !MentionsWord(Lower(line), WarningWords)
      && !MentionsWord(Lower(line), InfoWords)
  {
    var lower := Lower(line);
    if Mentions(lower, CriticalWords) then Critical
    else if Mentions(lower, WarningWords) then Warning
    else if Mentions(lower, InfoWords) then Info
    else Normal
  }

  /** The severity does not depend on letter case. */
  lemma DetectSeverityLower(line: string)
    ensures DetectSeverity(Lower(line)) == DetectSeverity(line)
  {
    LowerIdempotent(line);
  }

  // ===========================================================================
  // parseRawLogs
  // ===========================================================================

  /** The entry of one line: classified from the line as given, with the trimmed line as message. */
  function EntryOf(line: string, now: string): LogEntry {
    LogEntry(None, ParseTimestamp(line, now), ParseLogSource(line), DetectSeverity(line), Trim(line), None, None)
  }

  /** The lines whose trim is not empty, in their order. */
  function NonBlank(lines: seq<string>): (r: seq<string>)
    ensures |r| <= |lines|
    ensures forall i :: 0 <= i < |r| ==> Trim(r[i]) != "" && r[i] in lines
    ensures forall x :: x in lines && Trim(x) != "" ==> x in r
  {
    if lines == [] then []
    else
      var rest := NonBlank(lines[1..]);
      assert forall x :: x in lines[1..] ==> x in lines;
      assert forall x :: x in lines ==> x == lines[0] || x in lines[1..];
      if Trim(lines[0]) != "" then [lines[0]] + rest else rest
  }

  lemma {:induction false} NonBlankConcat(a: seq<string>, b: seq<string>)
    ensures NonBlank(a + b) == NonBlank(a) + NonBlank(b)
  {
    if a == [] {
      assert a + b == b;
    } else {
      assert (a + b)[0] == a[0] && (a + b)[1..] == a[1..] + b;
      NonBlankConcat(a[1..], b);
    }
  }

  /** `lines.map(line => EntryOf(line, now))` */
  function EntriesOf(lines: seq<string>, now: string): (r: seq<LogEntry>)
    ensures |r| == |lines|
    ensures forall i :: 0 <= i < |lines| ==> r[i] == EntryOf(lines[i], now)
  {
    seq(|lines|, i requires 0 <= i < |lines| => EntryOf(lines[i], now))
  }

  /** The lines of pasted text that are classified: the newline-separated lines whose trim is not empty, in input order. */
  function RawLines(raw: string): seq<string> {
    NonBlank(Split(raw, '\n'))
  }

  /** The entries of pasted text: one per classified line, in input order. */
  function ParseRawLogs(raw: string, now: string): seq<LogEntry> {
    EntriesOf(RawLines(raw), now)
  }

  /**
   * An entry as the classifier makes it: no id, analysis or category, and a
   * message that is not empty, has no white space at either end and no newline.
   */
  predicate FreshEntry(e: LogEntry) {
    && e.id.None? && e.aiAnalysis.None? && e.category.None?
    && e.message != "" && Trim(e.message) == e.message && '\n' !in e.message
  }

  lemma EntryOfFresh(line: string, now: string)
    requires Trim(line) != "" && '\n' !in line
    ensures FreshEntry(EntryOf(line, now))
  {
    TrimInfix(line, '\n');
    TrimIdempotent(line);
  }

  /** Every entry of pasted text is fresh from the classifier. */
  lemma ParseRawLogsFresh(raw: string, now: string)
    ensures forall i :: 0 <= i < |ParseRawLogs(raw, now)| ==> FreshEntry(ParseRawLogs(raw, now)[i])
  {
    var lines := RawLines(raw);
    forall i | 0 <= i < |lines| ensures FreshEntry(EntriesOf(lines, now)[i]) {
      EntryOfFresh(lines[i], now);
    }
  }

  /**
   * The `i`-th entry of pasted text comes from the `i`-th classified line: its
   * message is the trimmed line, and its origin, severity and timestamp are
   * read from the line as it was, untrimmed.
   */
  lemma ParseRawLogsAt(raw: string, now: string, i: nat)
    requires i < |RawLines(raw)|
    ensures |ParseRawLogs(raw, now)| == |RawLines(raw)|
    ensures var line, e := RawLines(raw)[i], ParseRawLogs(raw, now)[i];
      && e.message == Trim(line) && e.source == ParseLogSource(line)
      && e.severity == DetectSeverity(line) && e.timestamp == ParseTimestamp(line, now)
  {
  }

  lemma EntriesConcat(a: seq<string>, b: seq<string>, now: string)
    ensures EntriesOf(a + b, now) == EntriesOf(a, now) + EntriesOf(b, now)
  {
    var l, r := EntriesOf(a + b, now), EntriesOf(a, now) + EntriesOf(b, now);
    forall i | 0 <= i < |a + b| ensures l[i] == r[i] {
      if i < |a| {
        assert (a + b)[i] == a[i];
      } else {
        assert (a + b)[i] == b[i - |a|];
      }
    }
  }

  /** Text made of two parts joined by a newline has the lines of the first part, then those of the second. */
  lemma RawLinesConcat(a: string, b: string)
    ensures RawLines(a + "\n" + b) == RawLines(a) + RawLines(b)
  {
    SplitConcat(a, b, '\n');
    NonBlankConcat(Split(a, '\n'), Split(b, '\n'));
  }

  /** Text made of two parts joined by a newline gives the entries of the first part, then those of the second. */
  lemma ParseRawLogsConcat(a: string, b: string, now: string)
    ensures ParseRawLogs(a + "\n" + b, now) == ParseRawLogs(a, now) + ParseRawLogs(b, now)
  {
    RawLinesConcat(a, b);
    EntriesConcat(RawLines(a), RawLines(b), now);
  }

  /** One line is classified, as it is, unless it is blank. */
  lemma RawLinesLine(line: string)
    requires '\n' !in line
    ensures RawLines(line) == if Trim(line) == "" then [] else [line]
  {
    SplitSingle(line, '\n');
    assert [line][1..] == [];
  }

  /** Lines joined by newlines are classified exactly when not blank, in order. */
  lemma RawLinesJoin(lines: seq<string>)
    requires |lines| > 0
    requires forall i :: 0 <= i < |lines| ==> '\n' !in lines[i]
    ensures RawLines(Join(lines, '\n')) == NonBlank(lines)
  {
    SplitJoin(lines, '\n');
  }

  // ===========================================================================
  // matchRules
  // ===========================================================================

  /**
   * The regular-expression engine that user rule patterns run on, left
   * uninterpreted: whether `new RegExp(pattern, 'i')` is accepted, and what
   * `test` answers on a text.
   */
  datatype RegexEngine = RegexEngine(compiles: string -> bool, test: (string, string) -> bool)

  /**
   * What testing `rule` on `message` gives: `None` when the pattern is a regular
   * expression that does not compile (the error is caught), otherwise whether it
   * matches. A plain pattern matches when it occurs in the message, both lower-cased.
   */
  function RuleTest(engine: RegexEngine, rule: Rule, message: string): (r: Option<bool>)
    ensures r.None? <==> rule.isRegex && !engine.compiles(rule.pattern)
    ensures rule.isRegex && r.Some? ==> r.value == engine.test(rule.pattern, message)
    ensures !rule.isRegex ==> r == Some(Contains(Lower(message), Lower(rule.pattern)))
  {
    if rule.isRegex then
      if engine.compiles(rule.pattern) then Some(engine.test(rule.pattern, message)) else None
    else
      Some(Includes(Lower(message), Lower(rule.pattern)))
  }

  /** `rule` is enabled and matches `message`. */
  predicate Fires(engine: RegexEngine, rule: Rule, message: string) {
    rule.enabled && RuleTest(engine, rule, message) == Some(true)
  }

  /** The text a matching rule leaves as the entry's analysis. */
  function RuleAnalysis(rule: Rule): string {
    "Matched rule: " + rule.name + " - " + rule.description
  }

  /** The entry with the rule's category, severity and analysis. */
  function WithRule(entry: LogEntry, rule: Rule): LogEntry {
    entry.(category := Some(rule.category), severity := rule.severity, aiAnalysis := Some(RuleAnalysis(rule)))
  }

  /** The position of the first rule that fires on `message`. */
  function FirstFiring(engine: RegexEngine, rules: seq<Rule>, message: string): (r: Option<nat>)
    ensures r.Some? ==> r.value < |rules| && Fires(engine, rules[r.value], message)
    ensures r.Some? ==> forall j :: 0 <= j < r.value ==> !Fires(engine, rules[j], message)
    ensures r.None? <==> forall j :: 0 <= j < |rules| ==> !Fires(engine, rules[j], message)
  {
    if rules == [] then None
    else if Fires(engine, rules[0], message) then Some(0)
    else
      var tail := FirstFiring(engine, rules[1..], message);
      assert forall j :: 1 <= j < |rules| ==> rules[j] == rules[1..][j - 1];
      match tail
      case None => None
      case Some(t) => Some(t + 1)
  }

  /**
   * The entry after the rules, taken in order: the first enabled rule that
   * matches sets category, severity and analysis; a pattern that does not
   * compile counts as not matching.
   */
  function ApplyRules(engine: RegexEngine, entry: LogEntry, rules: seq<Rule>): (r: LogEntry)
    ensures r == match FirstFiring(engine, rules, entry.message)
      case None => entry
      case Some(j) => WithRule(entry, rules[j])
  {
    if rules == [] then entry
    else if Fires(engine, rules[0], entry.message) then WithRule(entry, rules[0])
    else ApplyRules(engine, entry, rules[1..])
  }

  /** `rules.filter(r => r.enabled)` */
  function EnabledRules(rules: seq<Rule>): (r: seq<Rule>)
    ensures forall i :: 0 <= i < |r| ==> r[i].enabled && r[i] in rules
    ensures forall x :: x in rules && x.enabled ==> x in r
  {
    if rules == [] then []
    else if rules[0].enabled then [rules[0]] + EnabledRules(rules[1..])
    else EnabledRules(rules[1..])
  }

  /** The filter works rule by rule, so the enabled rules keep their order and each is kept as often as it occurs. */
  lemma {:induction false} EnabledRulesConcat(a: seq<Rule>, b: seq<Rule>)
    ensures EnabledRules(a + b) == EnabledRules(a) + EnabledRules(b)
  {
    if a == [] {
      assert a + b == b;
    } else {
      assert (a + b)[0] == a[0] && (a + b)[1..] == a[1..] + b;
      EnabledRulesConcat(a[1..], b);
    }
  }

  /** On one rule, the filter keeps it exactly when it is enabled. */
  lemma EnabledRulesOne(x: Rule)
    ensures EnabledRules([x]) == if x.enabled then [x] else []
  {
    assert [x][1..] == [];
  }

  /** Only the enabled rules take part. */
  lemma {:induction false} ApplyEnabledRules(engine: RegexEngine, entry: LogEntry, rules: seq<Rule>)
    ensures ApplyRules(engine, entry, EnabledRules(rules)) == ApplyRules(engine, entry, rules)
  {
    if rules != [] {
      ApplyEnabledRules(engine, entry, rules[1..]);
      if rules[0].enabled {
        var e := EnabledRules(rules);
        assert e[0] == rules[0] && e[1..] == EnabledRules(rules[1..]);
      }
    }
  }

  /** From position `i` on, the rule at `i` decides if it fires, else the rules after it. */
  lemma ApplyRulesAt(engine: RegexEngine, entry: LogEntry, rules: seq<Rule>, i: nat)
    requires i < |rules|
    ensures ApplyRules(engine, entry, rules[i..]) ==
      if Fires(engine, rules[i], entry.message) then WithRule(entry, rules[i])
      else ApplyRules(engine, entry, rules[i + 1..])
  {
    assert rules[i..][0] == rules[i] && rules[i..][1..] == rules[i + 1..];
  }

  /**
   * `matchRules`: the rules are tried in order over the enabled ones; a pattern
   * that does not compile is passed over, and the first match decides.
   */
  method MatchRules(engine: RegexEngine, entry: LogEntry, rules: seq<Rule>) returns (r: LogEntry)
    ensures r == ApplyRules(engine, entry, rules)
  {
    var enabled := EnabledRules(rules);
    ApplyEnabledRules(engine, entry, rules);
    for i := 0 to |enabled|
      invariant ApplyRules(engine, entry, enabled[i..]) == ApplyRules(engine, entry, rules)
    {
      var rule := enabled[i];
      ApplyRulesAt(engine, entry, enabled, i);
      var matches := false;
      if rule.isRegex {
        if !engine.compiles(rule.pattern) {
          continue;
        }
        matches := engine.test(rule.pattern, entry.message);
      } else {
        matches := Includes(Lower(entry.message), Lower(rule.pattern));
      }
      if matches {
        return WithRule(entry, rule);
      }
    }
    return entry;
  }

  // ---------------------------------------------------------------------------
  // Properties of the rule engine
  // ---------------------------------------------------------------------------

  /** A matching rule changes only category, severity and analysis. */
  lemma ApplyRulesOnlyLabels(engine: RegexEngine, entry: LogEntry, rules: seq<Rule>)
    ensures var r := ApplyRules(engine, entry, rules);
      r.(category := entry.category, severity := entry.severity, aiAnalysis := entry.aiAnalysis) == entry
  {
  }

  /** Rules are tried in list order: a later list only counts when no earlier rule fires. */
  lemma {:induction false} ApplyRulesConcat(engine: RegexEngine, entry: LogEntry, a: seq<Rule>, b: seq<Rule>)
    ensures ApplyRules(engine, entry, a + b) ==
      if FirstFiring(engine, a, entry.message).Some? then ApplyRules(engine, entry, a)
      else ApplyRules(engine, entry, b)
  {
    if a == [] {
      assert a + b == b;
    } else {
      assert (a + b)[0] == a[0] && (a + b)[1..] == a[1..] + b;
      if !Fires(engine, a[0], entry.message) {
        ApplyRulesConcat(engine, entry, a[1..], b);
      }
    }
  }

  /** A rule that does not fire can be removed from anywhere in the list. */
  lemma SkipNonFiring(engine: RegexEngine, entry: LogEntry, pre: seq<Rule>, rule: Rule, post: seq<Rule>)
    requires !Fires(engine, rule, entry.message)
    ensures ApplyRules(engine, entry, pre + [rule] + post) == ApplyRules(engine, entry, pre + post)
  {
    ApplyRulesConcat(engine, entry, pre, [rule] + post);
    assert pre + [rule] + post == pre + ([rule] + post);
    ApplyRulesConcat(engine, entry, pre, post);
    assert ([rule] + post)[1..] == post;
  }

  /** A disabled rule is ignored, wherever it stands. */
  lemma DisabledIgnored(engine: RegexEngine, entry: LogEntry, pre: seq<Rule>, rule: Rule, post: seq<Rule>)
    requires !rule.enabled
    ensures ApplyRules(engine, entry, pre + [rule] + post) == ApplyRules(engine, entry, pre + post)
  {
    SkipNonFiring(engine, entry, pre, rule, post);
  }

  /** A regular-expression rule whose pattern does not compile is passed over, so a later match still applies. */
  lemma BadRegexSkipped(engine: RegexEngine, entry: LogEntry, pre: seq<Rule>, rule: Rule, post: seq<Rule>)
    requires rule.isRegex && !engine.compiles(rule.pattern)
    ensures ApplyRules(engine, entry, pre + [rule] + post) == ApplyRules(engine, entry, pre + post)
  {
    SkipNonFiring(engine, entry, pre, rule, post);
  }

  /** Matching again gives the same entry: the message, which decides the match, does not change. */
  lemma ApplyRulesIdempotent(engine: RegexEngine, entry: LogEntry, rules: seq<Rule>)
    ensures ApplyRules(engine, ApplyRules(engine, entry, rules), rules) == ApplyRules(engine, entry, rules)
  {
  }

  // ===========================================================================
  // parseAndMatchLogs
  // ===========================================================================

  /** `entries.map(log => matchRules(log, rules))` */
  function MatchAll(engine: RegexEngine, entries: seq<LogEntry>, rules: seq<Rule>): (r: seq<LogEntry>)
    ensures |r| == |entries|
    ensures forall i :: 0 <= i < |entries| ==> r[i] == ApplyRules(engine, entries[i], rules)
  {
    if entries == [] then [] else [ApplyRules(engine, entries[0], rules)] + MatchAll(engine, entries[1..], rules)
  }

  lemma {:induction false} MatchAllConcat(engine: RegexEngine, a: seq<LogEntry>, b: seq<LogEntry>, rules: seq<Rule>)
    ensures MatchAll(engine, a + b, rules) == MatchAll(engine, a, rules) + MatchAll(engine, b, rules)
  {
    if a == [] {
      assert a + b == b;
    } else {
      assert (a + b)[0] == a[0] && (a + b)[1..] == a[1..] + b;
      MatchAllConcat(engine, a[1..], b, rules);
    }
  }

  /** The entries of pasted text with the rules applied to each. */
  function ParseAndMatchLogs(engine: RegexEngine, raw: string, rules: seq<Rule>, now: string): seq<LogEntry> {
    MatchAll(engine, ParseRawLogs(raw, now), rules)
  }

  /** One matched entry per non-blank line, each the line's entry after the rules. */
  lemma ParseAndMatchLogsAt(engine: RegexEngine, raw: string, rules: seq<Rule>, now: string)
    ensures |ParseAndMatchLogs(engine, raw, rules, now)| == |ParseRawLogs(raw, now)|
    ensures forall i :: 0 <= i < |ParseRawLogs(raw, now)| ==>
      ParseAndMatchLogs(engine, raw, rules, now)[i] == ApplyRules(engine, ParseRawLogs(raw, now)[i], rules)
  {
  }

  /** With no rule firing on any message, the entries come through unchanged. */
  lemma MatchAllNoFiring(engine: RegexEngine, entries: seq<LogEntry>, rules: seq<Rule>)
    requires forall j, i :: 0 <= j < |rules| && 0 <= i < |entries| ==> !Fires(engine, rules[j], entries[i].message)
    ensures MatchAll(engine, entries, rules) == entries
  {
    forall i | 0 <= i < |entries| ensures ApplyRules(engine, entries[i], rules) == entries[i] {
      assert FirstFiring(engine, rules, entries[i].message).None?;
    }
  }

  /** Text joined by a newline gives the matched entries of each part in order. */
  lemma ParseAndMatchConcat(engine: RegexEngine, a: string, b: string, rules: seq<Rule>, now: string)
    ensures ParseAndMatchLogs(engine, a + "\n" + b, rules, now)
      == ParseAndMatchLogs(engine, a, rules, now) + ParseAndMatchLogs(engine, b, rules, now)
  {
    ParseRawLogsConcat(a, b, now);
    MatchAllConcat(engine, ParseRawLogs(a, now), ParseRawLogs(b, now), rules);
  }
}
