/**
  The content script's control: finding the frame that holds the ERP table
  (`initializeExtension`), the periodic scan (`highlightDeadlines`),
  stopping, clearing, and the answers to the popup's messages.
 */
module Scanner {
  import opened Wrappers
  import opened Text
  import opened Addresses
  import opened Timestamp
  import opened Classify
  import opened Annotate

  /** The name of the frame the ERP page shows its table in. */
  const FrameName: string := "myframe"

  /** Where the script looks for the table: the page's own window, or the child frame with the given index. */
  datatype Target = Window | Child(index: nat)

  /**
    What `initializeExtension` settles on: the frame the named lookup
    `window.frames[name]` gives; failing that, the first frame whose name can
    be read and is the configured one (`None` is a name that cannot be read
    across origins); failing that, the window itself.
   */
  predicate IsResolution(named: Option<nat>, names: seq<Option<string>>, t: Target) {
    if named.Some? then t == Child(named.value)
    else match t
      case Child(i) => i < |names| && names[i] == Some(FrameName) && forall j :: 0 <= j < i ==> names[j] != Some(FrameName)
      case Window => forall j :: 0 <= j < |names| ==> names[j] != Some(FrameName)
  }

  /** The frame search of `initializeExtension`. It always finds a target. */
  method FindTargetFrame(named: Option<nat>, names: seq<Option<string>>) returns (target: Target)
    ensures IsResolution(named, names, target)
  {
    if named.Some? {
      return Child(named.value);
    }
    var i := 0;
    while i < |names|
      invariant 0 <= i <= |names|
      invariant forall j :: 0 <= j < i ==> names[j] != Some(FrameName)
    {
      if names[i] == Some(FrameName) {
        return Child(i);
      }
      i := i + 1;
    }
    return Window;
  }

  /** Only one target answers the description, so the search is determined by what the host reports. */
  lemma ResolutionUnique(named: Option<nat>, names: seq<Option<string>>, t1: Target, t2: Target)
    requires IsResolution(named, names, t1) && IsResolution(named, names, t2)
    ensures t1 == t2
  {
    if named.None? {
      if t1.Child? {
        assert names[t1.index] == Some(FrameName);
      }
      if t2.Child? {
        assert names[t2.index] == Some(FrameName);
      }
    }
  }

  /** The position of a cell: its table row, and its place among the row's cells. */
  datatype Loc = Loc(row: nat, col: nat)

  /**
    The target's document as far as the scan sees it: the table's rows of
    cells, and what `document.evaluate(xpath, …).singleNodeValue` gives for an
    address (`None` when no node matches or evaluation throws).
   */
  datatype Document = Document(rows: seq<seq<Cell>>, evaluate: string -> Option<Loc>)

  predicate InDocument(doc: Document, l: Loc) {
    l.row < |doc.rows| && l.col < |doc.rows[l.row]|
  }

  /** The cell an address leads to, if any. */
  function Lookup(doc: Document, xpath: string): (r: Option<Loc>)
    ensures r.Some? ==> InDocument(doc, r.value)
  {
    match doc.evaluate(xpath)
    case Some(l) => if InDocument(doc, l) then Some(l) else None
    case None => None
  }

  /** Every cell of the document. */
  function CellsOf(doc: Document): set<Cell> {
    set r, c | 0 <= r < |doc.rows| && 0 <= c < |doc.rows[r]| :: doc.rows[r][c]
  }

  /** Distinct positions hold distinct cells, as nodes of a DOM tree do. */
  predicate DistinctCells(doc: Document) {
    forall r1, c1, r2, c2 ::
      (0 <= r1 < |doc.rows| && 0 <= c1 < |doc.rows[r1]| && 0 <= r2 < |doc.rows| && 0 <= c2 < |doc.rows[r2]| &&
       doc.rows[r1][c1] == doc.rows[r2][c2]) ==> r1 == r2 && c1 == c2
  }

  /** The cells in document order, row after row. */
  function Flatten(rows: seq<seq<Cell>>): seq<Cell> {
    if rows == [] then [] else rows[0] + Flatten(rows[1..])
  }

  /** Every cell of the table appears in document order. */
  lemma {:induction false} FlattenHasCell(rows: seq<seq<Cell>>, r: nat, c: nat) returns (k: nat)
    requires r < |rows| && c < |rows[r]|
    ensures k < |Flatten(rows)| && Flatten(rows)[k] == rows[r][c]
  {
    if r == 0 {
      k := c;
    } else {
      var k' := FlattenHasCell(rows[1..], r - 1, c);
      k := |rows[0]| + k';
    }
  }

  /** Everything in document order is a cell of the table. */
  lemma {:induction false} FlattenOnlyCells(rows: seq<seq<Cell>>, k: nat) returns (r: nat, c: nat)
    requires k < |Flatten(rows)|
    ensures r < |rows| && c < |rows[r]| && Flatten(rows)[k] == rows[r][c]
  {
    if k < |rows[0]| {
      r, c := 0, k;
    } else {
      var r', c' := FlattenOnlyCells(rows[1..], k - |rows[0]|);
      r, c := r' + 1, c';
    }
  }

  /** The de-duplication key of the scan: `row-<index>-<text>`, the index counting addresses from 0. */
  function RowKey(i: nat, text: string): string {
    "row-" + Decimal(i) + "-" + text
  }

  /** Keys of different addresses, or of different texts, never collide. */
  lemma RowKeyInjective(i: nat, s: string, j: nat, t: string)
    requires RowKey(i, s) == RowKey(j, t)
    ensures i == j && s == t
  {
    var a, b := RowKey(i, s), RowKey(j, t);
    assert a[4..] == Decimal(i) + ("-" + s);
    assert b[4..] == Decimal(j) + ("-" + t);
    DigitPrefixCancel(Decimal(i), "-" + s, Decimal(j), "-" + t);
    DecimalInjective(i, j);
    assert s == ("-" + s)[1..];
    assert t == ("-" + t)[1..];
  }

  /**
    What the host supplies to a scan: the `Date` constructor, the clock read
    (`new Date()`) while the address with the given index is processed, and
    the locale text of an instant (`toLocaleString`).
   */
  datatype Host = Host(makeDate: DateConstructor, clock: nat -> int, locale: int -> string)

  /** What the scan does with one address. */
  datatype Step =
    | Missing                                         // no cell at the address
    | Blank                                           // the cell's trimmed text is empty
    | Seen                                            // its key was recorded by an earlier scan
    | Unparsed                                        // the text is not a deadline
    | Mark(loc: Loc, text: string, deadline: Deadline)  // the row group is highlighted

  /** The trimmed text of a cell (`element.textContent?.trim()`). */
  function TextAt(doc: Document, l: Loc): string
    requires InDocument(doc, l)
  {
    Trim(doc.rows[l.row][l.col].text)
  }

  /** The step for address `i`, judged against the keys recorded before the scan began. */
  function StepAt(doc: Document, xpaths: seq<string>, processed: set<string>, host: Host, i: nat): Step
    requires i < |xpaths|
  {
    match Lookup(doc, xpaths[i])
    case None => Missing
    case Some(l) =>
      var text := TextAt(doc, l);
      if text == [] then Blank
      else if RowKey(i, text) in processed then Seen
      else
        match GetElementDateTimeFromText(text, host.makeDate)
        case None => Unparsed
        case Some(d) => Mark(l, text, d)
  }

  /** The steps for the first `n` addresses of a scan, in order. */
  function Steps(doc: Document, xpaths: seq<string>, processed: set<string>, host: Host, n: nat): (steps: seq<Step>)
    requires n <= |xpaths|
    ensures |steps| == n
  {
    if n == 0 then [] else Steps(doc, xpaths, processed, host, n - 1) + [StepAt(doc, xpaths, processed, host, n - 1)]
  }

  /** Step `i` of a scan is the step of address `i`. */
  lemma {:induction false} StepsAt(doc: Document, xpaths: seq<string>, processed: set<string>, host: Host, n: nat, i: nat)
    requires i < n <= |xpaths|
    ensures Steps(doc, xpaths, processed, host, n)[i] == StepAt(doc, xpaths, processed, host, i)
    decreases n
  {
    var before := Steps(doc, xpaths, processed, host, n - 1);
    assert Steps(doc, xpaths, processed, host, n) == before + [StepAt(doc, xpaths, processed, host, n - 1)];
    if i < n - 1 {
      StepsAt(doc, xpaths, processed, host, n - 1, i);
    }
  }

  /** The status and the tooltip the highlight of address `i` uses. */
  function MarkInfo(host: Host, i: nat, d: Deadline): StatusInfo {
    GetDeadlineStatus(d.time, host.clock(i))
  }

  function MarkTitle(host: Host, i: nat, d: Deadline): string {
    Title(host.locale(d.time), MarkInfo(host, i, d), GetTimeRemaining(d.time, host.clock(i)))
  }

  /** Whether `p` belongs to the row group of the cell at `l`. */
  predicate InGroup(l: Loc, p: Loc) {
    p.row == l.row && l.col - Min(SiblingsWalked, l.col) <= p.col <= l.col
  }

  /** The keys the first `n` steps add. */
  function NewKeys(steps: seq<Step>, n: nat): set<string>
    requires n <= |steps|
  {
    if n == 0 then {}
    else if steps[n - 1].Mark? then NewKeys(steps, n - 1) + {RowKey(n - 1, steps[n - 1].text)}
    else NewKeys(steps, n - 1)
  }

  /** How many of the first `n` steps found a cell with text (the script's `processedCount`). */
  function CountProcessed(steps: seq<Step>, n: nat): nat
    requires n <= |steps|
  {
    if n == 0 then 0
    else CountProcessed(steps, n - 1) + (if steps[n - 1].Missing? || steps[n - 1].Blank? then 0 else 1)
  }

  /** How many of the first `n` steps highlighted a row group (`highlightedCount`). */
  function CountMarked(steps: seq<Step>, n: nat): nat
    requires n <= |steps|
  {
    if n == 0 then 0
    else CountMarked(steps, n - 1) + (if steps[n - 1].Mark? then 1 else 0)
  }

  /** The state of the cell at `p` after the first `n` steps, from its state `s` before the scan. */
  function CellAfter(steps: seq<Step>, host: Host, p: Loc, s: CellState, n: nat): CellState
    requires n <= |steps|
  {
    if n == 0 then s
    else
      var before := CellAfter(steps, host, p, s, n - 1);
      match steps[n - 1]
      case Mark(l, _, d) =>
        if InGroup(l, p) then Highlighted(before, MarkInfo(host, n - 1, d), MarkTitle(host, n - 1, d)) else before
      case _ => before
  }

  /** One more step: the cell takes that step's highlight when it lies in the step's row group. */
  lemma CellAfterStep(steps: seq<Step>, host: Host, p: Loc, s: CellState, n: nat)
    requires n < |steps|
    ensures CellAfter(steps, host, p, s, n + 1) ==
      if steps[n].Mark? && InGroup(steps[n].loc, p)
      then Highlighted(CellAfter(steps, host, p, s, n), MarkInfo(host, n, steps[n].deadline), MarkTitle(host, n, steps[n].deadline))
      else CellAfter(steps, host, p, s, n)
  {
  }

  /** A key is added exactly for a step that highlights, with that step's index and text. */
  lemma {:induction false} NewKeysExactly(steps: seq<Step>, n: nat, key: string)
    requires n <= |steps|
    ensures key in NewKeys(steps, n) <==>
      exists i :: 0 <= i < n && steps[i].Mark? && key == RowKey(i, steps[i].text)
  {
    if n > 0 {
      NewKeysExactly(steps, n - 1, key);
    }
  }

  /** The keys the first `n` steps add never carry a later index. */
  lemma NewKeysBelow(steps: seq<Step>, n: nat, i: nat, text: string)
    requires n <= |steps| && n <= i
    ensures RowKey(i, text) !in NewKeys(steps, n)
  {
    NewKeysExactly(steps, n, RowKey(i, text));
    if RowKey(i, text) in NewKeys(steps, n) {
      var j :| 0 <= j < n && steps[j].Mark? && RowKey(i, text) == RowKey(j, steps[j].text);
      RowKeyInjective(i, text, j, steps[j].text);
    }
  }

  /** Every highlight is counted among the processed cells. */
  lemma {:induction false} MarkedWithinProcessed(steps: seq<Step>, n: nat)
    requires n <= |steps|
    ensures CountMarked(steps, n) <= CountProcessed(steps, n) <= n
  {
    if n > 0 {
      MarkedWithinProcessed(steps, n - 1);
    }
  }

  /** A cell outside every highlighted row group keeps its state through the scan. */
  lemma {:induction false} CellAfterUntouched(steps: seq<Step>, host: Host, p: Loc, s: CellState, n: nat)
    requires n <= |steps|
    requires forall i :: 0 <= i < n && steps[i].Mark? ==> !InGroup(steps[i].loc, p)
    ensures CellAfter(steps, host, p, s, n) == s
  {
    if n > 0 {
      CellAfterUntouched(steps, host, p, s, n - 1);
    }
  }

  /** The last highlight to reach a cell decides its style and title, and its two classes stay on the cell. */
  lemma {:induction false} CellAfterLastMark(steps: seq<Step>, host: Host, p: Loc, s: CellState, n: nat, i: nat)
    requires i < n <= |steps|
    requires steps[i].Mark? && InGroup(steps[i].loc, p)
    requires forall j :: i < j < n && steps[j].Mark? ==> !InGroup(steps[j].loc, p)
    ensures var d := steps[i].deadline;
      var r := CellAfter(steps, host, p, s, n);
      && r.style == HighlightStyle(MarkInfo(host, i, d))
      && r.title == MarkTitle(host, i, d)
      && HighlightedClass in r.classes && StatusClass(MarkInfo(host, i, d).status) in r.classes
  {
    if n > i + 1 {
      CellAfterLastMark(steps, host, p, s, n - 1, i);
    }
  }

  /** The scan never takes a class away from a cell. */
  lemma {:induction false} CellAfterKeepsClasses(steps: seq<Step>, host: Host, p: Loc, s: CellState, n: nat)
    requires n <= |steps|
    ensures s.classes <= CellAfter(steps, host, p, s, n).classes
  {
    if n > 0 {
      CellAfterKeepsClasses(steps, host, p, s, n - 1);
    }
  }

  /** A timer id as `setInterval` hands it out: never 0, so `if (intervalID)` tests whether a timer is set. */
  type TimerId = t: nat | t > 0 witness 1

  /** The control state: the globals `intervalID`, `targetFrame`, `isExtensionActive` and `processedRows`. */
  datatype Control = Control(intervalId: Option<TimerId>, targetFrame: Option<Target>, active: bool, processed: set<string>)

  /** The script is active exactly while its scan timer is set, and never without a target. */
  predicate ValidControl(s: Control) {
    (s.active <==> s.intervalId.Some?) && (s.active ==> s.targetFrame.Some?)
  }

  /** `initializeExtension` followed by `startHighlighting`, with the frame found and the timer the host handed out. */
  function Started(s: Control, target: Target, timer: TimerId): (r: Control)
    ensures ValidControl(r) && r.active && r.targetFrame == Some(target) && r.processed == s.processed
  {
    s.(intervalId := Some(timer), targetFrame := Some(target), active := true)
  }

  /** `stopHighlighting`: the timer cleared, the script inactive, the target and the keys kept. */
  function Stopped(s: Control): (r: Control)
    ensures ValidControl(r) && !r.active && r.intervalId == None
    ensures r.targetFrame == s.targetFrame && r.processed == s.processed
  {
    s.(intervalId := None, active := false)
  }

  /** Stopping an already stopped script changes nothing. */
  lemma StopIdempotent(s: Control)
    ensures Stopped(Stopped(s)) == Stopped(s)
  {
  }

  /** The answers the message listener sends. */
  datatype Response =
    | Outcome(success: bool, message: string)
    | StatusReport(isActive: bool, processedRows: nat)
    | Pong(success: bool, message: string, isActive: bool)

  /**
    The answer to `action` given the control state when the message arrives.
    `initializeExtension` always reports success, so the failure message of
    `start` is never sent.
   */
  function Reply(s: Control, action: string): (r: Response)
    ensures action == "start" ==> r == Outcome(!s.active, if s.active then "Extension already running" else "Extension started")
    ensures action !in {"start", "stop", "clear", "status", "ping"} ==> r == Outcome(false, "Unknown action")
  {
    match action
    case "start" => if !s.active then Outcome(true, "Extension started") else Outcome(false, "Extension already running")
    case "stop" => Outcome(true, "Extension stopped")
    case "clear" => Outcome(true, "Highlights cleared")
    case "status" => StatusReport(s.active, |s.processed|)
    case "ping" => Pong(true, "Content script is active", s.active)
    case _ => Outcome(false, "Unknown action")
  }

  /** The content script's globals and the operations on them. */
  class ContentScript {
    var intervalId: Option<TimerId>
    var targetFrame: Option<Target>
    var isActive: bool
    var processedRows: set<string>

    function State(): Control
      reads this
    {
      Control(intervalId, targetFrame, isActive, processedRows)
    }

    predicate Valid()
      reads this
    {
      ValidControl(State())
    }

    /** The globals as the script loads: no timer, no target, inactive, no keys. */
    constructor ()
      ensures Valid() && State() == Control(None, None, false, {})
    {
      intervalId := None;
      targetFrame := None;
      isActive := false;
      processedRows := {};
    }

    /**
      `initializeExtension`: find the target frame, become active and start
      the scan timer, replacing a timer already running. The auto-stop timer
      it also arms is the separate event `AutoStop`.
     */
    method InitializeExtension(named: Option<nat>, names: seq<Option<string>>, timer: TimerId) returns (success: bool)
      modifies this
      ensures success
      ensures targetFrame.Some? && IsResolution(named, names, targetFrame.value)
      ensures State() == Started(old(State()), targetFrame.value, timer)
      ensures Valid()
    {
      var target := FindTargetFrame(named, names);
      targetFrame := Some(target);
      isActive := true;
      StartHighlighting(timer);
      success := true;
    }

    /**
      `startHighlighting`: a running timer is cleared and replaced by the new
      one. The script calls it only once it is active and has a target.
     */
    method StartHighlighting(timer: TimerId)
      requires isActive && targetFrame.Some?
      modifies this`intervalId
      ensures intervalId == Some(timer)
      ensures Valid()
    {
      if intervalId.Some? {
        intervalId := None;
      }
      intervalId := Some(timer);
    }

    /** `stopHighlighting`. */
    method Stop()
      modifies this
      ensures State() == Stopped(old(State()))
      ensures Valid()
    {
      if intervalId.Some? {
        intervalId := None;
      }
      isActive := false;
    }

    /**
      The auto-stop timeout, five minutes after a start. `stopHighlighting`
      never cancels it, so it may fire in any state, even after a stop and a
      fresh start; it acts exactly as a stop.
     */
    method AutoStop()
      modifies this
      ensures State() == Stopped(old(State()))
      ensures Valid()
    {
      Stop();
    }

    /**
      `clearHighlights`, given the target's document (`None` when reading it
      throws): when there is a target and a document, every highlighted cell
      is cleared and the keys are forgotten; otherwise nothing changes.
     */
    method Clear(doc: Option<Document>)
      requires Valid()
      requires doc.Some? ==> DistinctCells(doc.value)
      modifies this`processedRows, if doc.Some? then CellsOf(doc.value) else {}
      ensures Valid()
      ensures targetFrame.Some? && doc.Some? ==> processedRows == {}
      ensures !(targetFrame.Some? && doc.Some?) ==> processedRows == old(processedRows)
      ensures doc.Some? ==> forall r, c :: 0 <= r < |doc.value.rows| && 0 <= c < |doc.value.rows[r]| ==>
        doc.value.rows[r][c].State() ==
          if targetFrame.Some? && HighlightedClass in old(doc.value.rows[r][c].classes)
          then Cleared(old(doc.value.rows[r][c].State())) else old(doc.value.rows[r][c].State())
    {
      if targetFrame.Some? && doc.Some? {
        var d := doc.value;
        var cells := Flatten(d.rows);
        forall k | 0 <= k < |cells|
          ensures cells[k] in CellsOf(d)
        {
          var r, c := FlattenOnlyCells(d.rows, k);
        }
        ClearCells(cells);
        forall r, c | 0 <= r < |d.rows| && 0 <= c < |d.rows[r]|
          ensures d.rows[r][c].State() ==
            if HighlightedClass in old(d.rows[r][c].classes) then Cleared(old(d.rows[r][c].State())) else old(d.rows[r][c].State())
        {
          var k := FlattenHasCell(d.rows, r, c);
        }
        processedRows := {};
      }
    }

    /**
      One run of `highlightDeadlines`. Inactive, without a target, or
      without a readable document, it changes nothing. Otherwise it walks
      the configured addresses in order and, for each, skips a missing cell,
      a blank text, a key already recorded and an unreadable deadline;
      else it highlights the cell's row group and records the key. The
      counts are the ones the script logs.
     */
    method Tick(doc: Option<Document>, host: Host) returns (processedCount: nat, highlightedCount: nat)
      requires Valid()
      requires doc.Some? ==> DistinctCells(doc.value)
      modifies this`processedRows, if doc.Some? then CellsOf(doc.value) else {}
      ensures Valid()
      ensures !(isActive && targetFrame.Some? && doc.Some?) ==>
        processedRows == old(processedRows) && processedCount == 0 && highlightedCount == 0
      ensures !(isActive && targetFrame.Some?) && doc.Some? ==>
        forall r, c :: 0 <= r < |doc.value.rows| && 0 <= c < |doc.value.rows[r]| ==>
          doc.value.rows[r][c].State() == old(doc.value.rows[r][c].State())
      ensures isActive && targetFrame.Some? && doc.Some? ==>
        var xpaths := Expansion(Template, StartNumber, EndNumber);
        var steps := Steps(doc.value, xpaths, old(processedRows), host, |xpaths|);
        && processedRows == old(processedRows) + NewKeys(steps, |steps|)
        && processedCount == CountProcessed(steps, |steps|)
        && highlightedCount == CountMarked(steps, |steps|)
        && forall r, c :: 0 <= r < |doc.value.rows| && 0 <= c < |doc.value.rows[r]| ==>
          doc.value.rows[r][c].State() == CellAfter(steps, host, Loc(r, c), old(doc.value.rows[r][c].State()), |steps|)
    {
      processedCount, highlightedCount := 0, 0;
      if !isActive || targetFrame.None? || doc.None? {
        return;
      }
      processedCount, highlightedCount := ScanConfigured(doc.value, Template, StartNumber, EndNumber, host);
    }

    /** The body of `highlightDeadlines` once it has a target: the addresses of the template, scanned in order. */
    method ScanConfigured(d: Document, template: string, startNumber: int, endNumber: int, host: Host)
      returns (processedCount: nat, highlightedCount: nat)
      requires DistinctCells(d)
      modifies this`processedRows, CellsOf(d)
      ensures var xpaths := Expansion(template, startNumber, endNumber);
        var steps := Steps(d, xpaths, old(processedRows), host, |xpaths|);
        && processedRows == old(processedRows) + NewKeys(steps, |steps|)
        && processedCount == CountProcessed(steps, |steps|)
        && highlightedCount == CountMarked(steps, |steps|)
        && forall r, c :: 0 <= r < |d.rows| && 0 <= c < |d.rows[r]| ==>
          d.rows[r][c].State() == CellAfter(steps, host, Loc(r, c), old(d.rows[r][c].State()), |steps|)
    {
      var xpaths := GenerateXPathExpressions(template, startNumber, endNumber);
      assert xpaths == Expansion(template, startNumber, endNumber);
      processedCount, highlightedCount := ScanAll(d, xpaths, host);
    }

    /** The loop of `highlightDeadlines` over a list of addresses, step by step as `Steps` describes. */
    method ScanAll(d: Document, xpaths: seq<string>, host: Host) returns (processedCount: nat, highlightedCount: nat)
      requires DistinctCells(d)
      modifies this`processedRows, CellsOf(d)
      ensures var steps := Steps(d, xpaths, old(processedRows), host, |xpaths|);
        && processedRows == old(processedRows) + NewKeys(steps, |steps|)
        && processedCount == CountProcessed(steps, |steps|)
        && highlightedCount == CountMarked(steps, |steps|)
        && forall r, c :: 0 <= r < |d.rows| && 0 <= c < |d.rows[r]| ==>
          d.rows[r][c].State() == CellAfter(steps, host, Loc(r, c), old(d.rows[r][c].State()), |steps|)
    {
      processedCount, highlightedCount := 0, 0;
      ghost var processed0 := processedRows;
      ghost var steps := Steps(d, xpaths, processed0, host, |xpaths|);
      var i := 0;
      while i < |xpaths|
        invariant 0 <= i <= |xpaths|
        invariant processedRows == processed0 + NewKeys(steps, i)
        invariant processedCount == CountProcessed(steps, i)
        invariant highlightedCount == CountMarked(steps, i)
        invariant forall r, c :: 0 <= r < |d.rows| && 0 <= c < |d.rows[r]| ==>
          d.rows[r][c].State() == CellAfter(steps, host, Loc(r, c), old(d.rows[r][c].State()), i)
      {
        forall t
          ensures RowKey(i, t) in processedRows <==> RowKey(i, t) in processed0
        {
          NewKeysBelow(steps, i, i, t);
        }
        ghost var step := steps[i];
        var counted, marked := ScanAddress(d, xpaths, processed0, host, i, steps);
        if counted {
          processedCount := processedCount + 1;
        }
        if marked {
          highlightedCount := highlightedCount + 1;
        }
        assert NewKeys(steps, i + 1) == NewKeys(steps, i) + (if step.Mark? then {RowKey(i, step.text)} else {});
        assert CountProcessed(steps, i + 1) == CountProcessed(steps, i) + (if counted then 1 else 0);
        assert CountMarked(steps, i + 1) == CountMarked(steps, i) + (if marked then 1 else 0);
        forall r, c | 0 <= r < |d.rows| && 0 <= c < |d.rows[r]|
          ensures d.rows[r][c].State() == CellAfter(steps, host, Loc(r, c), old(d.rows[r][c].State()), i + 1)
        {
          CellAfterStep(steps, host, Loc(r, c), old(d.rows[r][c].State()), i);
        }
        i := i + 1;
      }
    }

    /**
      The body of the scan loop for address `i`: what it does is the step
      `StepAt` describes, given that no key recorded during this scan carries
      the index `i`.
     */
    method ScanAddress(d: Document, xpaths: seq<string>, ghost processed0: set<string>, host: Host, i: nat,
                       ghost steps: seq<Step>)
      returns (counted: bool, marked: bool)
      requires DistinctCells(d) && i < |xpaths| && steps == Steps(d, xpaths, processed0, host, |xpaths|)
      requires forall t :: RowKey(i, t) in processedRows <==> RowKey(i, t) in processed0
      modifies this`processedRows, CellsOf(d)
      ensures var step := steps[i];
        && counted == !(step.Missing? || step.Blank?)
        && marked == step.Mark?
        && processedRows == old(processedRows) + (if step.Mark? then {RowKey(i, step.text)} else {})
        && forall r, c :: 0 <= r < |d.rows| && 0 <= c < |d.rows[r]| ==>
          d.rows[r][c].State() ==
            if step.Mark? && InGroup(step.loc, Loc(r, c))
            then Highlighted(old(d.rows[r][c].State()), MarkInfo(host, i, step.deadline), MarkTitle(host, i, step.deadline))
            else old(d.rows[r][c].State())
    {
      StepsAt(d, xpaths, processed0, host, |xpaths|, i);
      counted, marked := false, false;
      var element := Lookup(d, xpaths[i]);
      if element.None? {
        return;
      }
      var l := element.value;
      var timeText := Trim(d.rows[l.row][l.col].text);
      if timeText == [] {
        return;
      }
      counted := true;
      var rowId := RowKey(i, timeText);
      if rowId in processedRows {
        return;
      }
      marked := MarkDeadline(d, l, timeText, i, host);
    }

    /**
      The end of the loop body, for a cell with a new key: when its text is
      a deadline, highlight the row group against the clock and record the key.
     */
    method MarkDeadline(d: Document, l: Loc, timeText: string, i: nat, host: Host) returns (marked: bool)
      requires DistinctCells(d) && InDocument(d, l)
      modifies this`processedRows, CellsOf(d)
      ensures var parsed := GetElementDateTimeFromText(timeText, host.makeDate);
        && marked == parsed.Some?
        && processedRows == old(processedRows) + (if marked then {RowKey(i, timeText)} else {})
        && forall r, c :: 0 <= r < |d.rows| && 0 <= c < |d.rows[r]| ==>
          d.rows[r][c].State() ==
            if marked && InGroup(l, Loc(r, c))
            then Highlighted(old(d.rows[r][c].State()), MarkInfo(host, i, parsed.value), MarkTitle(host, i, parsed.value))
            else old(d.rows[r][c].State())
    {
      var elementDateTime := GetElementDateTimeFromText(timeText, host.makeDate);
      if elementDateTime.None? {
        return false;
      }
      RecordDeadline(d, l, timeText, i, host, elementDateTime.value);
      marked := true;
    }

    /** A parsed deadline: highlight the row group against the clock, then record the key. */
    method RecordDeadline(d: Document, l: Loc, timeText: string, i: nat, host: Host, deadline: Deadline)
      requires DistinctCells(d) && InDocument(d, l)
      modifies this`processedRows, CellsOf(d)
      ensures processedRows == old(processedRows) + {RowKey(i, timeText)}
      ensures forall r, c :: 0 <= r < |d.rows| && 0 <= c < |d.rows[r]| ==>
        d.rows[r][c].State() ==
          if InGroup(l, Loc(r, c))
          then Highlighted(old(d.rows[r][c].State()), MarkInfo(host, i, deadline), MarkTitle(host, i, deadline))
          else old(d.rows[r][c].State())
    {
      var currentDate := host.clock(i);
      HighlightGroup(d, l, deadline.time, currentDate, host.locale(deadline.time));
      processedRows := processedRows + {RowKey(i, timeText)};
    }

    /**
      `applyDeadlineHighlight` on the cell at `l` of the document, stated by
      position: its row group is highlighted and no other cell changes.
     */
    method HighlightGroup(d: Document, l: Loc, deadline: int, current: int, deadlineText: string)
      requires DistinctCells(d) && InDocument(d, l)
      modifies CellsOf(d)
      ensures var info := GetDeadlineStatus(deadline, current);
        var title := Title(deadlineText, info, GetTimeRemaining(deadline, current));
        forall r, c :: 0 <= r < |d.rows| && 0 <= c < |d.rows[r]| ==>
          d.rows[r][c].State() ==
            if InGroup(l, Loc(r, c)) then Highlighted(old(d.rows[r][c].State()), info, title) else old(d.rows[r][c].State())
    {
      var row := d.rows[l.row];
      assert Group(row, l.col) <= CellsOf(d);
      ApplyDeadlineHighlight(row, l.col, deadline, current, deadlineText);
      forall r, c | 0 <= r < |d.rows| && 0 <= c < |d.rows[r]| && !InGroup(l, Loc(r, c))
        ensures d.rows[r][c] !in Group(row, l.col)
      {
      }
    }

    /**
      The message listener: `start` initializes the script unless it is
      active, `stop` stops it, `clear` clears the highlights, `status` and
      `ping` only report, and any other action is refused. The reply is
      computed from the state the message finds.
     */
    method HandleMessage(action: string, doc: Option<Document>, named: Option<nat>, names: seq<Option<string>>, timer: TimerId)
      returns (response: Response)
      requires Valid()
      requires doc.Some? ==> DistinctCells(doc.value)
      modifies this, if doc.Some? then CellsOf(doc.value) else {}
      ensures Valid()
      ensures response == Reply(old(State()), action)
      ensures action == "start" && !old(isActive) ==>
        targetFrame.Some? && IsResolution(named, names, targetFrame.value) && State() == Started(old(State()), targetFrame.value, timer)
      ensures action == "stop" ==> State() == Stopped(old(State()))
      ensures action == "clear" ==>
        State() == old(State()).(processed := if old(targetFrame).Some? && doc.Some? then {} else old(processedRows))
      ensures action !in {"start", "stop", "clear"} || (action == "start" && old(isActive)) ==> State() == old(State())
      ensures action != "clear" && doc.Some? ==>
        forall r, c :: 0 <= r < |doc.value.rows| && 0 <= c < |doc.value.rows[r]| ==>
          doc.value.rows[r][c].State() == old(doc.value.rows[r][c].State())
      ensures action == "clear" && doc.Some? ==>
        forall r, c :: 0 <= r < |doc.value.rows| && 0 <= c < |doc.value.rows[r]| ==>
          doc.value.rows[r][c].State() ==
            if targetFrame.Some? && HighlightedClass in old(doc.value.rows[r][c].classes)
            then Cleared(old(doc.value.rows[r][c].State())) else old(doc.value.rows[r][c].State())
    {
      response := Reply(State(), action);
      match action
      case "start" =>
        if !isActive {
          var success := InitializeExtension(named, names, timer);
        }
      case "stop" =>
        Stop();
      case "clear" =>
        Clear(doc);
      case _ =>
    }
  }
}
