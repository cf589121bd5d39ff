/**
  Marking a deadline's table row: the cells that make up the row group
  (`getRowElements`), the highlight each of them receives
  (`applyDeadlineHighlight`) and its removal (`clearHighlights`).
 */
module Annotate {
  import opened Wrappers
  import opened Text
  import opened Classify

  /** The inline style properties the script writes. */
  datatype Style = Style(transition: string, backgroundColor: string, borderColor: string,
                         borderWidth: string, borderStyle: string, boxShadow: string)

  /** A cell nobody has styled. */
  const NoStyle: Style := Style("", "", "", "", "", "")

  const Transition: string := "all 0.3s ease-in-out"
  const Shadow: string := "0 2px 4px rgba(0,0,0,0.1)"

  /** The class that marks a highlighted cell, and the one naming its status. */
  const HighlightedClass: string := "erp-deadline-highlighted"

  function StatusClass(s: Status): string {
    "erp-status-" + StatusName(s)
  }

  /** The four classes `clearHighlights` removes. */
  function MarkerClasses(): set<string> {
    {HighlightedClass, StatusClass(Overdue), StatusClass(Warning), StatusClass(Upcoming)}
  }

  /** What the script can change on a cell: its inline style, its `title` and its class list. */
  datatype CellState = CellState(style: Style, title: string, classes: set<string>)

  /** The style of a highlighted cell: the status colour on a thin grey solid border, with a shadow. */
  function HighlightStyle(info: StatusInfo): Style {
    Style(Transition, info.color, BorderColor, "1px", "solid", Shadow)
  }

  /** A cell after the highlight: new style and title, and the two classes added to its class set. */
  function Highlighted(s: CellState, info: StatusInfo, title: string): (r: CellState)
    ensures r.style.backgroundColor == info.color && r.style.borderColor == BorderColor
    ensures r.style.borderWidth == "1px" && r.style.borderStyle == "solid"
    ensures r.title == title
    ensures r.classes == s.classes + {HighlightedClass, StatusClass(info.status)}
  {
    CellState(HighlightStyle(info), title, s.classes + {HighlightedClass, StatusClass(info.status)})
  }

  /**
    A cell after `clearHighlights`: background, border and shadow reset,
    title emptied, the marker classes removed. The transition is left as it was.
   */
  function Cleared(s: CellState): (r: CellState)
    ensures r.style.backgroundColor == "" && r.style.borderColor == "" && r.style.borderWidth == ""
    ensures r.style.borderStyle == "" && r.style.boxShadow == "" && r.title == ""
    ensures r.style.transition == s.style.transition
    ensures r.classes == s.classes - MarkerClasses()
  {
    CellState(s.style.(backgroundColor := "", borderColor := "", borderWidth := "", borderStyle := "", boxShadow := ""),
              "", s.classes - MarkerClasses())
  }

  /** The status classes are distinct, so a cell's classes name each status it was highlighted with. */
  lemma StatusClassInjective(a: Status, b: Status)
    requires StatusClass(a) == StatusClass(b)
    ensures a == b
  {
    var x, y := StatusClass(a), StatusClass(b);
    assert x[11] == y[11];
  }

  /** Highlighting twice with the same status and title is highlighting once (class addition is a set union). */
  lemma HighlightIdempotent(s: CellState, info: StatusInfo, title: string)
    ensures Highlighted(Highlighted(s, info, title), info, title) == Highlighted(s, info, title)
  {
  }

  /** Clearing twice is clearing once. */
  lemma ClearIdempotent(s: CellState)
    ensures Cleared(Cleared(s)) == Cleared(s)
  {
  }

  /**
    Clearing undoes a highlight except for the transition it set: the cell
    ends as if it had been cleared without being highlighted, but with the
    highlight's transition.
   */
  lemma ClearAfterHighlight(s: CellState, info: StatusInfo, title: string)
    ensures Cleared(Highlighted(s, info, title)) == Cleared(s).(style := Cleared(s).style.(transition := Transition))
  {
    var marks := {HighlightedClass, StatusClass(info.status)};
    assert marks <= MarkerClasses();
    assert (s.classes + marks) - MarkerClasses() == s.classes - MarkerClasses();
  }

  /** A cell of the ERP table. Its text is read, never written; its style, title and classes are updated in place. */
  class Cell {
    const text: string
    var style: Style
    var title: string
    var classes: set<string>

    function State(): CellState
      reads this
    {
      CellState(style, title, classes)
    }

    constructor (text: string)
      ensures this.text == text && State() == CellState(NoStyle, "", {})
    {
      this.text := text;
      style := NoStyle;
      title := "";
      classes := {};
    }

    /** The body of the `forEach` in `applyDeadlineHighlight`, for one cell. */
    method Highlight(info: StatusInfo, title: string)
      modifies this
      ensures State() == Highlighted(old(State()), info, title)
    {
      style := style.(transition := Transition);
      style := style.(backgroundColor := info.color);
      style := style.(borderColor := BorderColor);
      style := style.(borderWidth := "1px");
      style := style.(borderStyle := "solid");
      style := style.(boxShadow := Shadow);
      this.title := title;
      classes := classes + {HighlightedClass};
      classes := classes + {StatusClass(info.status)};
    }

    /** The body of the `forEach` in `clearHighlights`, for one cell. */
    method Clear()
      modifies this
      ensures State() == Cleared(old(State()))
    {
      style := style.(backgroundColor := "", borderColor := "", borderWidth := "", borderStyle := "", boxShadow := "");
      title := "";
      classes := classes - MarkerClasses();
    }
  }

  /** `siblingLabels.length`: how many preceding siblings the row group reaches back. */
  const SiblingsWalked: nat := 10

  function Min(a: nat, b: nat): nat {
    if a <= b then a else b
  }

  /**
    `getRowElements`: nothing for a missing cell; otherwise the cell at
    `col` and then its preceding siblings, nearest first, as many as exist
    up to ten. Once there is no previous sibling the optional chain stays
    `null`, and nothing more is added.
   */
  method GetRowElements(row: seq<Cell>, col: Option<nat>) returns (elements: seq<Cell>)
    requires col.Some? ==> col.value < |row|
    ensures col.None? ==> elements == []
    ensures col.Some? ==> |elements| == 1 + Min(SiblingsWalked, col.value)
    ensures col.Some? ==> forall k :: 0 <= k < |elements| ==> elements[k] == row[col.value - k]
  {
    if col.None? {
      return [];
    }
    var c := col.value;
    var current: Option<nat> := Some(c);
    elements := [row[c]];
    var i := 0;
    while i < SiblingsWalked
      invariant 0 <= i <= SiblingsWalked
      invariant current == if i <= c then Some(c - i) else None
      invariant |elements| == 1 + Min(i, c)
      invariant forall k :: 0 <= k < |elements| ==> elements[k] == row[c - k]
    {
      current := if current.Some? && current.value > 0 then Some(current.value - 1) else None;
      if current.Some? {
        elements := elements + [row[current.value]];
      }
      i := i + 1;
    }
  }

  /** The cells of a row group: `col` and the up to ten cells before it. */
  function Group(row: seq<Cell>, col: nat): set<Cell>
    requires col < |row|
  {
    set k | col - Min(SiblingsWalked, col) <= k <= col :: row[k]
  }

  /** The tooltip: the deadline as the host's locale writes it, the status message and the remaining time. */
  function Title(deadlineText: string, info: StatusInfo, remaining: Remaining): string {
    "Deadline: " + deadlineText + "\nStatus: " + info.message + "\n" + RemainingText(remaining)
  }

  /**
    `applyDeadlineHighlight` for the cell at `col` of `row`: every cell of its
    row group gets the status colour, border, title and the two classes;
    no other cell changes. A cell that occurs twice in the group is simply
    highlighted twice, to the same effect.
   */
  method ApplyDeadlineHighlight(row: seq<Cell>, col: nat, deadline: int, current: int, deadlineText: string)
    requires col < |row|
    modifies Group(row, col)
    ensures forall e :: e in Group(row, col) ==>
      e.State() == Highlighted(old(e.State()), GetDeadlineStatus(deadline, current),
                               Title(deadlineText, GetDeadlineStatus(deadline, current), GetTimeRemaining(deadline, current)))
  {
    var rowElements := GetRowElements(row, Some(col));
    var info := GetDeadlineStatus(deadline, current);
    var timeRemaining := GetTimeRemaining(deadline, current);
    GroupIsRowElements(row, col, rowElements);
    HighlightCells(rowElements, info, Title(deadlineText, info, timeRemaining));
  }

  /** The cells `GetRowElements` lists are exactly the cells of the group. */
  lemma GroupIsRowElements(row: seq<Cell>, col: nat, elements: seq<Cell>)
    requires col < |row|
    requires |elements| == 1 + Min(SiblingsWalked, col)
    requires forall k :: 0 <= k < |elements| ==> elements[k] == row[col - k]
    ensures (set k | 0 <= k < |elements| :: elements[k]) == Group(row, col)
  {
    forall e | e in Group(row, col)
      ensures e in (set k | 0 <= k < |elements| :: elements[k])
    {
      var k :| col - Min(SiblingsWalked, col) <= k <= col && row[k] == e;
      assert elements[col - k] == e;
    }
  }

  /** The `forEach` of `applyDeadlineHighlight`: every listed cell gets the highlight, however often it is listed. */
  method HighlightCells(cells: seq<Cell>, info: StatusInfo, title: string)
    modifies set k | 0 <= k < |cells| :: cells[k]
    ensures forall k :: 0 <= k < |cells| ==> cells[k].State() == Highlighted(old(cells[k].State()), info, title)
  {
    var i := 0;
    while i < |cells|
      invariant 0 <= i <= |cells|
      invariant forall k :: 0 <= k < |cells| ==>
        cells[k].State() == if cells[k] in cells[..i] then Highlighted(old(cells[k].State()), info, title) else old(cells[k].State())
    {
      var e := cells[i];
      e.Highlight(info, title);
      assert cells[..i + 1] == cells[..i] + [e];
      i := i + 1;
    }
    assert cells[..i] == cells;
  }

  /**
    The `forEach` of `clearHighlights` over the cells of a document, in
    document order: every cell carrying the highlight class is cleared, and
    no other cell changes.
   */
  method ClearCells(cells: seq<Cell>)
    modifies set k | 0 <= k < |cells| :: cells[k]
    ensures forall k :: 0 <= k < |cells| ==>
      cells[k].State() == if HighlightedClass in old(cells[k].classes) then Cleared(old(cells[k].State())) else old(cells[k].State())
  {
    var i := 0;
    while i < |cells|
      invariant 0 <= i <= |cells|
      invariant forall k :: 0 <= k < |cells| ==>
        cells[k].State() == if cells[k] in cells[..i] && HighlightedClass in old(cells[k].classes)
                            then Cleared(old(cells[k].State())) else old(cells[k].State())
    {
      var e := cells[i];
      if HighlightedClass in e.classes {
        e.Clear();
      }
      assert cells[..i + 1] == cells[..i] + [e];
      i := i + 1;
    }
    assert cells[..i] == cells;
  }
}
