/**
 * The log entry record and its labels. The field types are closed variants
 * where the program's TypeScript union is closed; the severity and category
 * fields can additionally hold any other word, because the analysis reply is
 * copied into them unchecked, and the category can be `custom`, which a rule
 * carries although the entry's declared union lacks it.
 */
module LogAnalyzer {
  import opened Wrappers

  datatype Source = Opnsense | Linux | Unifi | Unknown

  datatype Severity = Critical | Warning | Info | Normal | SeverityWord(word: string)

  datatype Category = Security | SystemFailure | Network | Other | Custom | CategoryWord(word: string)

  /** One classified log line. `id` is absent for entries that were never given one. */
  datatype LogEntry = LogEntry(
    id: Option<string>,
    timestamp: string,
    source: Source,
    severity: Severity,
    message: string,
    aiAnalysis: Option<string>,
    category: Option<Category>)

  // ---------------------------------------------------------------------------
  // Labels as the words the program stores
  // ---------------------------------------------------------------------------

  function SeverityName(s: Severity): string {
    match s
    case Critical => "critical"
    case Warning => "warning"
    case Info => "info"
    case Normal => "normal"
    case SeverityWord(w) => w
  }

  /** Only words outside the four names are held as a bare word. */
  predicate CanonicalSeverity(s: Severity) {
    s.SeverityWord? ==> s.word !in {"critical", "warning", "info", "normal"}
  }

  /** The label a stored word denotes. */
  function SeverityOf(w: string): (s: Severity)
    ensures SeverityName(s) == w
    ensures CanonicalSeverity(s)
  {
    if w == "critical" then Critical
    else if w == "warning" then Warning
    else if w == "info" then Info
    else if w == "normal" then Normal
    else SeverityWord(w)
  }

  lemma SeverityOfName(s: Severity)
    requires CanonicalSeverity(s)
    ensures SeverityOf(SeverityName(s)) == s
  {
  }

  function CategoryName(c: Category): string {
    match c
    case Security => "security"
    case SystemFailure => "system-failure"
    case Network => "network"
    case Other => "other"
    case Custom => "custom"
    case CategoryWord(w) => w
  }

  predicate CanonicalCategory(c: Category) {
    c.CategoryWord? ==> c.word !in {"security", "system-failure", "network", "other", "custom"}
  }

  function CategoryOf(w: string): (c: Category)
    ensures CategoryName(c) == w
    ensures CanonicalCategory(c)
  {
    if w == "security" then Security
    else if w == "system-failure" then SystemFailure
    else if w == "network" then Network
    else if w == "other" then Other
    else if w == "custom" then Custom
    else CategoryWord(w)
  }

  lemma CategoryOfName(c: Category)
    requires CanonicalCategory(c)
    ensures CategoryOf(CategoryName(c)) == c
  {
  }

  // ---------------------------------------------------------------------------
  // Which entries still want an analysis
  // ---------------------------------------------------------------------------

  /** `entry.aiAnalysis` is truthy: present and not the empty string. */
  predicate HasAnalysis(e: LogEntry) {
    e.aiAnalysis.Some? && e.aiAnalysis.value != ""
  }

  /**
   * Critical or warning, and no analysis yet: the test both the batch and the
   * real-time path apply. The severity is compared as the stored word, so a
   * bare word `critical` counts like the label `Critical`.
   */
  predicate NeedsAnalysis(e: LogEntry) {
    (SeverityName(e.severity) == "critical" || SeverityName(e.severity) == "warning") && !HasAnalysis(e)
  }

  /** Both representations of a critical or warning severity are sent for analysis. */
  lemma NeedsAnalysisByName(e: LogEntry)
    requires !HasAnalysis(e)
    ensures e.severity in {Critical, Warning, SeverityWord("critical"), SeverityWord("warning")} ==> NeedsAnalysis(e)
    ensures NeedsAnalysis(e) ==> e.severity in {Critical, Warning, SeverityWord("critical"), SeverityWord("warning")}
  {
  }
}
