/**
 * The model-backed enrichment: turning the language model's reply into an
 * updated entry, with its fallbacks and error branches, and the batch
 * scheduler that enriches up to twenty eligible entries in order.
 *
 * The HTTP request and the JSON decoding are not modelled: their result is an
 * `Outcome`, supplied by the caller.
 */
module OllamaService {
  import opened Wrappers
  import opened Text
  import opened LogAnalyzer

  /**
   * How the request for one entry ended: the model's reply text, a response
   * that was not OK (with its status text), or a thrown error, with its message
   * when the error is an `Error` object.
   */
  datatype Outcome = Replied(text: string) | NotOk(statusText: string) | Threw(message: Option<string>)

  /** The prompt sent for an entry. */
  function Prompt(message: string): (r: string)
    ensures |r| == |PromptHead| + |message| + |PromptTail|
    ensures r[..|PromptHead|] == PromptHead
    ensures SubstringAt(r, |PromptHead|, message)
    ensures r[|PromptHead| + |message|..] == PromptTail
  {
    PromptHead + message + PromptTail
  }

  const PromptHead: string :=
    "Analyze this system log entry and determine:\n"
    + "1. Is this a security concern? (intrusion attempt, unauthorized access, etc.)\n"
    + "2. Is this a system failure? (crash, service down, hardware issue, etc.)\n"
    + "3. Severity level (critical, warning, info, normal)\n"
    + "4. Brief explanation of the issue\n\n"
    + "Log: "

  const PromptTail: string :=
    "\n\nRespond in this format:\n"
    + "Category: [security/system-failure/network/other]\n"
    + "Severity: [critical/warning/info/normal]\n"
    + "Analysis: [brief explanation]"

  // ===========================================================================
  // Labels in the reply
  // ===========================================================================

  /**
   * The lower-case literal `lit` matches at `k` under the case-insensitive
   * flag: outside Unicode mode only ASCII letters fold, so this is ASCII
   * lower-casing.
   */
  predicate CiLiteralAt(s: string, k: nat, lit: string) {
    k + |lit| <= |s| && forall i :: 0 <= i < |lit| ==> LowerChar(s[k + i]) == lit[i]
  }

  /** `[-\w]` */
  predicate IsWordOrHyphen(c: char) { IsWordChar(c) || c == '-' }

  /** `.`: anything but a line terminator. */
  predicate IsDotChar(c: char) { !IsLineTerminator(c) }

  /** A word character follows the white space after `p`. */
  ghost predicate WordAfterSpaces(s: string, p: nat, q: nat) {
    RunAt(s, p, q, IsSpace) && q < |s| && IsWordChar(s[q])
  }

  /**
   * Where a `tag\s*(\w...)` capture starts: the first character after the
   * white space following `p`, when it is a word character. A shorter `\s*`
   * would leave a space where a word character is needed, so this is the only
   * start.
   */
  function WordStart(s: string, p: nat): (r: Option<nat>)
    requires p <= |s|
    ensures r.Some? ==> WordAfterSpaces(s, p, r.value)
    ensures forall q: nat {:trigger WordAfterSpaces(s, p, q)} :: WordAfterSpaces(s, p, q) <==> r == Some(q)
  {
    var q := p + Span(s, p, IsSpace);
    SpanRun(s, p, IsSpace);
    forall q': nat | WordAfterSpaces(s, p, q') ensures q' == q {
      assert !IsSpace(s[q']);
      SpanExact(s, p, q', IsSpace);
    }
    if q < |s| && IsWordChar(s[q]) then Some(q) else None
  }

  /** `tag\s*` followed by a word character matches at `k`. */
  ghost predicate LabelAt(s: string, k: nat, tag: string) {
    var p := k + |tag|;
    CiLiteralAt(s, k, tag) && exists q: nat :: WordAfterSpaces(s, p, q)
  }

  /** `\s*\w` matches at `p`: white space, then a word character. */
  predicate WordFollows(s: string, p: nat)
    decreases |s| - p
  {
    p < |s| && (IsWordChar(s[p]) || (IsSpace(s[p]) && WordFollows(s, p + 1)))
  }

  lemma {:induction false} WordFollowsIff(s: string, p: nat)
    decreases |s| - p
    ensures WordFollows(s, p) <==> exists q: nat :: WordAfterSpaces(s, p, q)
  {
    if p < |s| {
      WordFollowsIff(s, p + 1);
      if IsWordChar(s[p]) {
        assert WordAfterSpaces(s, p, p);
      } else if IsSpace(s[p]) && WordFollows(s, p + 1) {
        var q: nat :| WordAfterSpaces(s, p + 1, q);
        assert WordAfterSpaces(s, p, q);
      }
      if q: nat :| WordAfterSpaces(s, p, q) {
        if q > p {
          assert WordAfterSpaces(s, p + 1, q);
        }
      }
    }
  }

  /** The label test the search runs at each position. */
  predicate LabelTest(s: string, k: nat, tag: string) {
    CiLiteralAt(s, k, tag) && WordFollows(s, k + |tag|)
  }

  /** The label test passes exactly where `tag\s*\w` matches. */
  lemma LabelTestIff(s: string, k: nat, tag: string)
    ensures LabelTest(s, k, tag) <==> LabelAt(s, k, tag)
  {
    WordFollowsIff(s, k + |tag|);
  }

  /** The first position `k` or later at which the label test passes. */
  function LabelFrom(s: string, tag: string, k: nat): (r: Option<nat>)
    decreases |s| - k
    ensures r.Some? ==> k <= r.value < |s| && LabelTest(s, r.value, tag)
    ensures r.Some? ==> forall j :: k <= j < r.value ==> !LabelTest(s, j, tag)
    ensures r.None? <==> forall j :: k <= j < |s| ==> !LabelTest(s, j, tag)
  {
    if k >= |s| then None
    else if LabelTest(s, k, tag) then Some(k)
    else LabelFrom(s, tag, k + 1)
  }

  /** The first position at which `tag\s*\w` matches, and where the word starts. */
  function FirstLabel(s: string, tag: string): (r: Option<(nat, nat)>)
    ensures r.Some? ==> LabelAt(s, r.value.0, tag) && forall j: nat :: j < r.value.0 ==> !LabelAt(s, j, tag)
    ensures r.Some? ==> WordAfterSpaces(s, r.value.0 + |tag|, r.value.1)
    ensures r.None? <==> forall k: nat :: !LabelAt(s, k, tag)
  {
    forall k: nat ensures LabelTest(s, k, tag) <==> LabelAt(s, k, tag) {
      LabelTestIff(s, k, tag);
    }
    match LabelFrom(s, tag, 0)
    case None => None
    case Some(k) => Some((k, WordStart(s, k + |tag|).value))
  }

  /** `w` is the longest run of `inRun` characters starting at `q`. */
  predicate LongestRunAt(s: string, q: nat, w: string, inRun: char -> bool) {
    SubstringAt(s, q, w) && RunAt(s, q, q + |w|, inRun) && (q + |w| < |s| ==> !inRun(s[q + |w|]))
  }

  /** The longest run of `inRun` characters starting at `q`. */
  function LongestRun(s: string, q: nat, inRun: char -> bool): (w: string)
    requires q <= |s|
    ensures LongestRunAt(s, q, w, inRun)
  {
    var w := s[q..q + Span(s, q, inRun)];
    SpanRun(s, q, inRun);
    assert SubstringAt(s, q, w);
    w
  }

  /**
   * The word `/Category:\s*(\w+[-\w]*)/i` captures: after the leftmost label,
   * the longest run of word characters and hyphens, which starts with a word character.
   */
  function ExtractCategory(s: string): (r: Option<string>)
    ensures r.None? <==> forall k: nat :: !LabelAt(s, k, "category:")
    ensures r.Some? ==>
      && FirstLabel(s, "category:").Some?
      && LongestRunAt(s, FirstLabel(s, "category:").value.1, r.value, IsWordOrHyphen)
    ensures r.Some? ==> r.value != [] && IsWordChar(r.value[0])
  {
    match FirstLabel(s, "category:")
    case None => None
    case Some((_, q)) => Some(LongestRun(s, q, IsWordOrHyphen))
  }

  /** The word `/Severity:\s*(\w+)/i` captures: after the leftmost label, the longest run of word characters. */
  function ExtractSeverity(s: string): (r: Option<string>)
    ensures r.None? <==> forall k: nat :: !LabelAt(s, k, "severity:")
    ensures r.Some? ==>
      && FirstLabel(s, "severity:").Some?
      && LongestRunAt(s, FirstLabel(s, "severity:").value.1, r.value, IsWordChar)
    ensures r.Some? ==> r.value != []
  {
    match FirstLabel(s, "severity:")
    case None => None
    case Some((_, q)) => Some(LongestRun(s, q, IsWordChar))
  }

  // ---------------------------------------------------------------------------
  // Analysis:\s*(.+?)(?:\n|$)
  // ---------------------------------------------------------------------------

  /**
   * `(.+?)(?:\n|$)` matches from `q` with the capture `s[q..e]`: at least one
   * character, none a line terminator, then a newline or the end of the text.
   */
  ghost predicate LazyCapture(s: string, q: nat, e: nat) {
    q < e && RunAt(s, q, e, IsDotChar) && (e == |s| || s[e] == '\n')
  }

  /** The end of the lazy capture from `q`: the first line terminator or the end, if that ends the match. */
  function LazyEnd(s: string, q: nat): (r: Option<nat>)
    requires q <= |s|
    ensures forall e: nat {:trigger LazyCapture(s, q, e)} :: LazyCapture(s, q, e) <==> r == Some(e)
  {
    var e := q + Span(s, q, IsDotChar);
    SpanRun(s, q, IsDotChar);
    assert forall e': nat :: LazyCapture(s, q, e') ==> e' == e;
    if q < e && (e == |s| || s[e] == '\n') then Some(e) else None
  }

  /** The whole expression matches at `k`, with `\s*` taking `s[k+9..q]` and the capture `s[q..e]`. */
  ghost predicate AnalysisMatch(s: string, k: nat, q: nat, e: nat) {
    CiLiteralAt(s, k, "analysis:") && RunAt(s, k + 9, q, IsSpace) && LazyCapture(s, q, e)
  }

  /**
   * Backtracking `\s*` from `n` characters down to none: the first length after
   * which the lazy capture succeeds.
   */
  function Backtrack(s: string, p: nat, n: nat): (r: Option<(nat, nat)>)
    requires p + n <= |s|
    ensures r.Some? ==> var (q, e) := r.value;
      p <= q <= p + n && LazyCapture(s, q, e)
      && forall q': nat, e': nat :: q < q' <= p + n ==> !LazyCapture(s, q', e')
    ensures r.None? ==> forall q': nat, e': nat :: p <= q' <= p + n ==> !LazyCapture(s, q', e')
  {
    match LazyEnd(s, p + n)
    case Some(e) => Some((p + n, e))
    case None =>
      if n == 0 then None else Backtrack(s, p, n - 1)
  }

  /** The match of the analysis expression at `k`, if any: the longest white space after which the capture succeeds. */
  function AnalysisAt(s: string, k: nat): (r: Option<(nat, nat)>)
    ensures r.Some? ==> AnalysisMatch(s, k, r.value.0, r.value.1)
    ensures r.Some? ==> forall q: nat, e: nat :: AnalysisMatch(s, k, q, e) ==> q <= r.value.0
    ensures r.None? ==> forall q: nat, e: nat :: !AnalysisMatch(s, k, q, e)
  {
    if !CiLiteralAt(s, k, "analysis:") then None
    else
      var n := Span(s, k + 9, IsSpace);
      SpanRun(s, k + 9, IsSpace);
      var r := Backtrack(s, k + 9, n);
      assert forall q: nat, e: nat :: AnalysisMatch(s, k, q, e) ==> q <= k + 9 + n;
      r
  }

  /** The first position `k` or later at which the analysis expression matches, with its match there. */
  function AnalysisFrom(s: string, k: nat): (r: Option<(nat, nat, nat)>)
    decreases |s| - k
    ensures r.Some? ==> k <= r.value.0 < |s| && AnalysisAt(s, r.value.0) == Some((r.value.1, r.value.2))
    ensures r.Some? ==> forall j :: k <= j < r.value.0 ==> AnalysisAt(s, j).None?
    ensures r.None? ==> forall j :: k <= j < |s| ==> AnalysisAt(s, j).None?
  {
    if k >= |s| then None
    else match AnalysisAt(s, k)
      case Some((q, e)) => Some((k, q, e))
      case None => AnalysisFrom(s, k + 1)
  }

  /**
   * The text `/Analysis:\s*(.+?)(?:\n|$)/i` captures: at the leftmost position
   * where the expression matches, with the longest white space that lets it match.
   */
  function ExtractAnalysis(s: string): (r: Option<string>)
    ensures r.None? <==> forall k: nat, q: nat, e: nat :: !AnalysisMatch(s, k, q, e)
    ensures r.Some? ==> exists k: nat, q: nat, e: nat ::
      && AnalysisMatch(s, k, q, e) && r.value == s[q..e]
      && (forall j: nat, q': nat, e': nat :: j < k ==> !AnalysisMatch(s, j, q', e'))
      && (forall q': nat, e': nat :: AnalysisMatch(s, k, q', e') ==> q' <= q)
  {
    var found := AnalysisFrom(s, 0);
    assert forall j: nat, q: nat, e: nat :: AnalysisMatch(s, j, q, e) ==> j < |s| && AnalysisAt(s, j).Some?;
    match found
    case None => None
    case Some((k, q, e)) => Some(s[q..e])
  }

  // ===========================================================================
  // analyzeLogWithOllama, after the request
  // ===========================================================================

  /** The analysis text a reply leaves: the trimmed capture when not empty, else the first 200 characters of the reply. */
  function ReplyAnalysis(text: string): (r: string)
    ensures ExtractAnalysis(text).Some? && Trim(ExtractAnalysis(text).value) != "" ==> r == Trim(ExtractAnalysis(text).value)
    ensures ExtractAnalysis(text).None? || Trim(ExtractAnalysis(text).value) == "" ==> r == Prefix(text, 200)
    ensures r == "" <==> text == ""
  {
    match ExtractAnalysis(text)
    case Some(a) =>
      var t := Trim(a);
      if t != "" then t else Prefix(text, 200)
    case None => Prefix(text, 200)
  }

  /**
   * The entry after its request: a reply sets the category and severity named in
   * it, lower-cased and unchecked, keeping the old ones when a tag is missing,
   * and sets the analysis; an error sets only the analysis, to an error text.
   */
  function AnalyzeLog(entry: LogEntry, outcome: Outcome): (r: LogEntry)
    ensures r.id == entry.id && r.timestamp == entry.timestamp
    ensures r.source == entry.source && r.message == entry.message
    ensures outcome.Replied? ==>
      && r.category == (match ExtractCategory(outcome.text)
                        case Some(w) => Some(CategoryOf(Lower(w)))
                        case None => entry.category)
      && r.severity == (match ExtractSeverity(outcome.text)
                        case Some(w) => SeverityOf(Lower(w))
                        case None => entry.severity)
      && r.aiAnalysis == Some(ReplyAnalysis(outcome.text))
    ensures outcome.NotOk? ==> r == entry.(aiAnalysis := Some("Error: Ollama API error: " + outcome.statusText))
    ensures outcome.Threw? ==> r == entry.(aiAnalysis := Some("Error: " + outcome.message.GetOr("Failed to analyze")))
  {
    match outcome
    case Replied(text) =>
      var category := match ExtractCategory(text) case Some(w) => Some(CategoryOf(Lower(w))) case None => entry.category;
      var severity := match ExtractSeverity(text) case Some(w) => SeverityOf(Lower(w)) case None => entry.severity;
      entry.(category := category, severity := severity, aiAnalysis := Some(ReplyAnalysis(text)))
    case NotOk(statusText) =>
      var thrown := "Ollama API error: " + statusText;
      assert "Error: " + thrown == "Error: Ollama API error: " + statusText;
      entry.(aiAnalysis := Some("Error: " + thrown))
    case Threw(message) =>
      entry.(aiAnalysis := Some("Error: " + message.GetOr("Failed to analyze")))
  }

  /** After an error only the analysis changes, and it reads `Error: ...`. */
  lemma ErrorOnlyAnalysis(entry: LogEntry, outcome: Outcome)
    requires !outcome.Replied?
    ensures var r := AnalyzeLog(entry, outcome);
      r.(aiAnalysis := entry.aiAnalysis) == entry && r.aiAnalysis.Some? && "Error: " <= r.aiAnalysis.value
  {
  }

  /** An enriched entry has an analysis, unless the reply was empty text. */
  lemma AnalyzedHasAnalysis(entry: LogEntry, outcome: Outcome)
    ensures HasAnalysis(AnalyzeLog(entry, outcome)) <==> outcome != Replied("")
  {
  }

  // ===========================================================================
  // batchAnalyzeLogs
  // ===========================================================================

  /** At most this many entries are enriched per batch. */
  const BatchLimit: nat := 20

  predicate Increasing(s: seq<nat>) {
    forall a, b :: 0 <= a < b < |s| ==> s[a] < s[b]
  }

  /** The positions from `i` on of the entries that want an analysis, in order. */
  function EligibleFrom(logs: seq<LogEntry>, i: nat): (r: seq<nat>)
    requires i <= |logs|
    decreases |logs| - i
    ensures Increasing(r)
    ensures forall k :: 0 <= k < |r| ==> i <= r[k] < |logs| && NeedsAnalysis(logs[r[k]])
  {
    if i == |logs| then []
    else if NeedsAnalysis(logs[i]) then [i] + EligibleFrom(logs, i + 1)
    else EligibleFrom(logs, i + 1)
  }

  /** Every eligible position from `i` on is listed. */
  lemma {:induction false} EligibleComplete(logs: seq<LogEntry>, i: nat, j: nat)
    requires i <= j < |logs| && NeedsAnalysis(logs[j])
    ensures j in EligibleFrom(logs, i)
    decreases j - i
  {
    if i < j {
      EligibleComplete(logs, i + 1, j);
    }
  }

  /**
   * The positions of the entries a batch enriches: the eligible ones, in input
   * order, cut to the first twenty.
   */
  function Selected(logs: seq<LogEntry>): (r: seq<nat>)
    ensures |r| <= BatchLimit && Increasing(r)
    ensures forall k :: 0 <= k < |r| ==> r[k] < |logs| && NeedsAnalysis(logs[r[k]])
  {
    var e := EligibleFrom(logs, 0);
    if |e| <= BatchLimit then e else e[..BatchLimit]
  }

  /**
   * The selection is the first eligible entries: every eligible entry before a
   * selected one is selected before it, and with fewer than twenty selected,
   * every eligible entry is.
   */
  lemma SelectedFirst(logs: seq<LogEntry>, j: nat)
    requires j < |logs| && NeedsAnalysis(logs[j])
    ensures |Selected(logs)| < BatchLimit ==> j in Selected(logs)
    ensures forall k :: 0 <= k < |Selected(logs)| && j < Selected(logs)[k] ==> j in Selected(logs)[..k]
  {
    var e := EligibleFrom(logs, 0);
    var r := Selected(logs);
    EligibleComplete(logs, 0, j);
    var m :| 0 <= m < |e| && e[m] == j;
    forall k | 0 <= k < |r| && j < r[k] ensures j in r[..k] {
      assert m < k;
      assert r[..k][m] == j;
    }
  }

  /** The positions from `i` on that are not in `sel`, in order: the entries a batch passes over. */
  function SkippedFrom(logs: seq<LogEntry>, sel: seq<nat>, i: nat): (r: seq<nat>)
    requires i <= |logs|
    decreases |logs| - i
    ensures Increasing(r)
    ensures forall k :: 0 <= k < |r| ==> i <= r[k] < |logs| && r[k] !in sel
  {
    if i == |logs| then []
    else if i !in sel then [i] + SkippedFrom(logs, sel, i + 1)
    else SkippedFrom(logs, sel, i + 1)
  }

  /** Every position from `i` on that is not in `sel` is skipped. */
  lemma {:induction false} SkippedComplete(logs: seq<LogEntry>, sel: seq<nat>, i: nat, j: nat)
    requires i <= j < |logs| && j !in sel
    ensures j in SkippedFrom(logs, sel, i)
    decreases j - i
  {
    if i < j {
      SkippedComplete(logs, sel, i + 1, j);
    }
  }

  function Skipped(logs: seq<LogEntry>): seq<nat> {
    SkippedFrom(logs, Selected(logs), 0)
  }

  /** The entries at the given positions. */
  function Pick(logs: seq<LogEntry>, idx: seq<nat>): (r: seq<LogEntry>)
    requires forall k :: 0 <= k < |idx| ==> idx[k] < |logs|
    ensures |r| == |idx| && forall k :: 0 <= k < |idx| ==> r[k] == logs[idx[k]]
  {
    seq(|idx|, k requires 0 <= k < |idx| => logs[idx[k]])
  }

  /**
   * The outcome of the `k`-th request of a batch, whose prompt is given. The
   * requests of a batch are made one after the other, so they are numbered.
   */
  type Transport = (nat, string) -> Outcome

  /** The entry after the `k`-th request of a batch: `analyzeLogWithOllama` with the request abstracted. */
  function Enrich(entry: LogEntry, k: nat, transport: Transport): LogEntry {
    AnalyzeLog(entry, transport(k, Prompt(entry.message)))
  }

  /** What a batch does to one entry, given the request's number. */
  type Step = (LogEntry, nat) -> LogEntry

  /** The step of `batchAnalyzeLogs`: the `k`-th request enriches the entry. */
  function EnrichStep(transport: Transport): Step {
    (entry: LogEntry, k: nat) => Enrich(entry, k, transport)
  }

  /** What a batch returns: the selected entries after `step`, in order, then the skipped ones unchanged. */
  function BatchResult(logs: seq<LogEntry>, step: Step): seq<LogEntry> {
    var sel := Selected(logs);
    seq(|sel|, k requires 0 <= k < |sel| => step(logs[sel[k]], k)) + Pick(logs, Skipped(logs))
  }

  /**
   * The loop of `batchAnalyzeLogs`: `step` is applied to each entry in turn,
   * with its number, and after the `i`-th entry progress `(i, n)` is reported
   * for `n` entries.
   */
  method EnrichEach(toAnalyze: seq<LogEntry>, step: Step)
    returns (analyzed: seq<LogEntry>, progress: seq<(nat, nat)>)
    ensures |analyzed| == |toAnalyze| && |progress| == |toAnalyze|
    ensures forall k :: 0 <= k < |toAnalyze| ==> analyzed[k] == step(toAnalyze[k], k)
    ensures forall k :: 0 <= k < |toAnalyze| ==> progress[k] == (k + 1, |toAnalyze|)
  {
    analyzed, progress := [], [];
    for i := 0 to |toAnalyze|
      invariant |analyzed| == i && |progress| == i
      invariant forall k :: 0 <= k < i ==> analyzed[k] == step(toAnalyze[k], k)
      invariant forall k :: 0 <= k < i ==> progress[k] == (k + 1, |toAnalyze|)
    {
      var analyzedLog := step(toAnalyze[i], i);
      analyzed := analyzed + [analyzedLog];
      progress := progress + [(i + 1, |toAnalyze|)];
    }
  }

  /**
   * `batchAnalyzeLogs`: the selected entries are enriched one request at a
   * time, with progress reported after each; `progress` lists the reports in
   * the order they are made.
   */
  method BatchAnalyze(logs: seq<LogEntry>, transport: Transport)
    returns (result: seq<LogEntry>, progress: seq<(nat, nat)>)
    ensures result == BatchResult(logs, EnrichStep(transport))
    ensures |progress| == |Selected(logs)|
    ensures forall k :: 0 <= k < |progress| ==> progress[k] == (k + 1, |Selected(logs)|)
  {
    var sel := Selected(logs);
    var toAnalyze := Pick(logs, sel);
    var skipLogs := Pick(logs, Skipped(logs));
    var analyzed;
    analyzed, progress := EnrichEach(toAnalyze, EnrichStep(transport));
    result := analyzed + skipLogs;
  }

  // ---------------------------------------------------------------------------
  // Properties of a batch
  // ---------------------------------------------------------------------------

  function Elements(s: seq<nat>): set<nat> {
    set x | x in s
  }

  lemma {:induction false} IncreasingCard(s: seq<nat>)
    requires Increasing(s)
    ensures |Elements(s)| == |s|
  {
    if s != [] {
      IncreasingCard(s[1..]);
      assert Elements(s) == {s[0]} + Elements(s[1..]);
      assert s[0] !in Elements(s[1..]);
    }
  }

  /** The positions `lo, lo + 1, ..., hi - 1`. */
  function Positions(lo: nat, hi: nat): (r: seq<nat>)
    requires lo <= hi
    ensures |r| == hi - lo && Increasing(r)
    ensures forall k :: 0 <= k < |r| ==> r[k] == lo + k
  {
    seq(hi - lo, k requires 0 <= k < hi - lo => lo + k)
  }

  /** Every entry is either selected or skipped, never both. */
  lemma SelectedSkippedPartition(logs: seq<LogEntry>)
    ensures forall j :: 0 <= j < |logs| ==> (j in Selected(logs) <==> j !in Skipped(logs))
    ensures |Selected(logs)| + |Skipped(logs)| == |logs|
  {
    var sel, skip := Selected(logs), Skipped(logs);
    var all := Positions(0, |logs|);
    IncreasingCard(sel);
    IncreasingCard(skip);
    IncreasingCard(all);
    assert Elements(sel) * Elements(skip) == {};
    assert forall x: nat :: x in Elements(all) <==> x < |logs| by {
      forall x: nat | x < |logs| ensures x in Elements(all) {
        assert all[x] == x;
      }
    }
    forall j: nat | j < |logs| && j !in sel ensures j in skip {
      SkippedComplete(logs, sel, 0, j);
    }
    assert Elements(sel) + Elements(skip) == Elements(all);
  }

  /** A batch returns as many entries as it was given. */
  lemma BatchLength(logs: seq<LogEntry>, step: Step)
    ensures |BatchResult(logs, step)| == |logs|
  {
    SelectedSkippedPartition(logs);
  }

  /** The result is the enriched selected entries, then the skipped entries unchanged, each block in input order. */
  lemma BatchBlocks(logs: seq<LogEntry>, step: Step)
    ensures var sel, skip, r := Selected(logs), Skipped(logs), BatchResult(logs, step);
      && |r| == |sel| + |skip|
      && (forall k :: 0 <= k < |sel| ==> r[k] == step(logs[sel[k]], k))
      && (forall k :: 0 <= k < |skip| ==> r[|sel| + k] == logs[skip[k]])
      && Increasing(sel) && Increasing(skip)
  {
  }

  /** With every entry eligible, the first twenty are enriched and the rest follow unchanged. */
  lemma AllEligibleBatch(logs: seq<LogEntry>, step: Step)
    requires forall i :: 0 <= i < |logs| ==> NeedsAnalysis(logs[i])
    ensures var n := if |logs| < BatchLimit then |logs| else BatchLimit;
      && Selected(logs) == Positions(0, n)
      && Skipped(logs) == Positions(n, |logs|)
      && |BatchResult(logs, step)| == |logs|
      && (forall k :: 0 <= k < n ==> BatchResult(logs, step)[k] == step(logs[k], k))
      && BatchResult(logs, step)[n..] == logs[n..]
  {
    var n := if |logs| < BatchLimit then |logs| else BatchLimit;
    EligibleAll(logs, 0);
    assert Selected(logs) == Positions(0, n);
    SkippedAfter(logs, Positions(0, n), n, 0);
    var r := BatchResult(logs, step);
    assert r[n..] == Pick(logs, Positions(n, |logs|));
  }

  lemma {:induction false} EligibleAll(logs: seq<LogEntry>, i: nat)
    requires i <= |logs|
    requires forall j :: i <= j < |logs| ==> NeedsAnalysis(logs[j])
    ensures EligibleFrom(logs, i) == Positions(i, |logs|)
    decreases |logs| - i
  {
    if i < |logs| {
      EligibleAll(logs, i + 1);
      PositionsCons(i, |logs|);
    }
  }

  lemma PositionsCons(lo: nat, hi: nat)
    requires lo < hi
    ensures Positions(lo, hi) == [lo] + Positions(lo + 1, hi)
  {
  }

  /** When the selection is the first `n` positions, the skipped ones are the rest. */
  lemma {:induction false} SkippedAfter(logs: seq<LogEntry>, sel: seq<nat>, n: nat, i: nat)
    requires n <= |logs| && sel == Positions(0, n) && i <= |logs|
    ensures SkippedFrom(logs, sel, i) == Positions(if i <= n then n else i, |logs|)
    decreases |logs| - i
  {
    if i < |logs| {
      SkippedAfter(logs, sel, n, i + 1);
      if i < n {
        assert sel[i] == i;
        assert SkippedFrom(logs, sel, i) == SkippedFrom(logs, sel, i + 1);
      } else {
        assert i !in sel by {
          forall k | 0 <= k < |sel| ensures sel[k] != i {}
        }
        assert SkippedFrom(logs, sel, i) == [i] + SkippedFrom(logs, sel, i + 1);
        PositionsCons(i, |logs|);
      }
    }
  }
}
