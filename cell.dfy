/**
  Cell.java: the classification of trimmed contents into a number, formula or string
  cell, the formula tree and its evaluation against the other cells, and a cell
  object whose value, error flag and display text are recomputed in place.
*/
module Cells {
  import opened Options
  import opened Graphs

  // ---------------------------------------------------------------------------
  // Formula trees and the external parsers

  datatype Op = Plus | Minus | Times | Divide

  /** The formula tree FNode.parseFormulaString produces. */
  datatype Expr =
    | Lit(x: real)
    | Ref(id: Id)
    | Negate(e: Expr)
    | Binary(op: Op, left: Expr, right: Expr)

  /** The collaborators Cell.make calls: Double.parseDouble (whether the text is a
      number, and which) and FNode.parseFormulaString (None when it throws). */
  datatype Reader = Reader(
    parsesAsNumber: string -> bool,
    numberOf: string -> real,
    parseFormula: string -> Option<Expr>)

  // ---------------------------------------------------------------------------
  // String.trim

  /** String.trim removes every character up to and including U+0020. */
  predicate IsSpace(c: char) {
    c <= ' '
  }

  function StartOfText(s: string, i: nat): (j: nat)
    requires i <= |s|
    requires forall k | 0 <= k < i :: IsSpace(s[k])
    ensures i <= j <= |s|
    ensures forall k | 0 <= k < j :: IsSpace(s[k])
    ensures j < |s| ==> !IsSpace(s[j])
    decreases |s| - i
  {
    if i < |s| && IsSpace(s[i]) then StartOfText(s, i + 1) else i
  }

  function EndOfText(s: string, lo: nat, j: nat): (e: nat)
    requires lo <= j <= |s|
    requires forall k | j <= k < |s| :: IsSpace(s[k])
    ensures lo <= e <= j
    ensures forall k | e <= k < |s| :: IsSpace(s[k])
    ensures e > lo ==> !IsSpace(s[e - 1])
  {
    if j > lo && IsSpace(s[j - 1]) then EndOfText(s, lo, j - 1) else j
  }

  /** String.trim: the text between the leading and trailing white space. */
  function Trim(s: string): (r: string)
    ensures r == "" <==> forall k | 0 <= k < |s| :: IsSpace(s[k])
    ensures r != "" ==> !IsSpace(r[0]) && !IsSpace(r[|r| - 1])
    ensures |r| <= |s|
    ensures exists i, j :: 0 <= i <= j <= |s| && r == s[i..j] &&
                           (forall k | 0 <= k < i :: IsSpace(s[k])) &&
                           (forall k | j <= k < |s| :: IsSpace(s[k]))
  {
    var i := StartOfText(s, 0);
    var j := EndOfText(s, i, |s|);
    assert i < |s| ==> j > i;
    s[i..j]
  }

  /** Text as a cell keeps it: non-empty, with no white space at either end. */
  predicate Stored(t: string) {
    t != "" && !IsSpace(t[0]) && !IsSpace(t[|t| - 1])
  }

  lemma StoredIsTrimmed(t: string)
    ensures Stored(t) <==> t != "" && Trim(t) == t
  {
    if Stored(t) {
      assert StartOfText(t, 0) == 0;
      assert EndOfText(t, 0, |t|) == |t|;
    }
  }

  /** Trimming twice is trimming once. */
  lemma TrimIdempotent(s: string)
    ensures Trim(Trim(s)) == Trim(s)
  {
    var t := Trim(s);
    if t != "" {
      assert StartOfText(t, 0) == 0;
      assert EndOfText(t, 0, |t|) == |t|;
    }
  }

  // ---------------------------------------------------------------------------
  // Contents and the state a cell shows

  datatype Kind = NumberKind | FormulaKind | StringKind

  /** What Cell.make decides once and for all: the kind, the trimmed text, and the
      number or the formula tree. */
  datatype Content =
    | NumberContent(text: string, number: real)
    | FormulaContent(text: string, tree: Expr)
    | StringContent(text: string)
  {
    function Kind(): Kind {
      match this
      case NumberContent(_, _) => NumberKind
      case FormulaContent(_, _) => FormulaKind
      case StringContent(_) => StringKind
    }
  }

  /** Cell.displayString: the raw text, "ERROR", or a number (printed in the source
      with one decimal digit; the formatting is not modelled). */
  datatype Display = Raw(text: string) | ErrorText | Shown(value: real)

  /** A snapshot of one cell: its fixed content and its derived fields. */
  datatype View = View(content: Content, value: Option<real>, error: bool, display: Display)

  /** The derived fields agree with the kind, as Cell.java's accessors promise. */
  ghost predicate ValidView(v: View) {
    Stored(v.content.text) &&
    match v.content
    case NumberContent(t, n) => v.value == Some(n) && !v.error && v.display == Raw(t)
    case StringContent(t) => v.value == None && !v.error && v.display == Raw(t)
    case FormulaContent(_, _) =>
      (v.error && v.value == None && v.display == ErrorText) ||
      (!v.error && v.value.Some? && v.display == Shown(v.value.value))
  }

  datatype Classified = Blank | Malformed | Parsed(content: Content)

  /** The decision Cell.make takes: trim; nothing for empty text; a number if the
      trimmed text parses as one (the number check comes first);
      else a formula if it starts with '=' (Malformed when the parser fails); else a string. */
  function Classify(contents: string, reader: Reader): (r: Classified)
    ensures r.Blank? <==> Trim(contents) == ""
    ensures r.Parsed? ==> r.content.text == Trim(contents)
    ensures r.Parsed? && r.content.NumberContent? ==> r.content.number == reader.numberOf(Trim(contents))
    ensures r.Parsed? && r.content.NumberContent? <==> Trim(contents) != "" && reader.parsesAsNumber(Trim(contents))
    ensures r.Parsed? && r.content.FormulaContent? ==>
              !reader.parsesAsNumber(Trim(contents)) && Trim(contents)[0] == '=' &&
              reader.parseFormula(Trim(contents)) == Some(r.content.tree)
    ensures r.Malformed? <==>
              Trim(contents) != "" && !reader.parsesAsNumber(Trim(contents)) && Trim(contents)[0] == '=' &&
              reader.parseFormula(Trim(contents)).None?
    ensures r.Parsed? && r.content.StringContent? <==>
              Trim(contents) != "" && !reader.parsesAsNumber(Trim(contents)) && Trim(contents)[0] != '='
  {
    var t := Trim(contents);
    if t == "" then Blank
    else if reader.parsesAsNumber(t) then Parsed(NumberContent(t, reader.numberOf(t)))
    else if t[0] == '=' then
      match reader.parseFormula(t)
      case Some(e) => Parsed(FormulaContent(t, e))
      case None => Malformed
    else Parsed(StringContent(t))
  }

  /** The state of a freshly made cell: formulas are in error until evaluated. */
  function Initial(c: Content): (v: View)
    requires Stored(c.text)
    ensures ValidView(v) && v.content == c
    ensures c.FormulaContent? ==> v.error && v.display == ErrorText && v.value == None
    ensures !c.FormulaContent? ==> !v.error && v.display == Raw(c.text)
  {
    match c
    case NumberContent(t, n) => View(c, Some(n), false, Raw(t))
    case StringContent(t) => View(c, None, false, Raw(t))
    case FormulaContent(_, _) => View(c, None, true, ErrorText)
  }

  /** Classified contents make a valid initial cell. */
  lemma ParsedIsValid(contents: string, reader: Reader)
    requires Classify(contents, reader).Parsed?
    ensures var c := Classify(contents, reader).content;
            Stored(c.text) && Trim(c.text) == c.text && ValidView(Initial(c))
  {
    TrimIdempotent(contents);
    StoredIsTrimmed(Trim(contents));
  }

  // ---------------------------------------------------------------------------
  // Evaluation

  /** Cell.getUpstreamIDs for a formula: the ids of the reference leaves. */
  function Refs(e: Expr): set<Id> {
    match e
    case Lit(_) => {}
    case Ref(id) => {id}
    case Negate(a) => Refs(a)
    case Binary(_, a, b) => Refs(a) + Refs(b)
  }

  function ContentRefs(c: Content): set<Id> {
    if c.FormulaContent? then Refs(c.tree) else {}
  }

  /** The number a referencing formula may use: a number cell's value, a formula
      cell's value when it is not in error, nothing for a string cell. */
  function Usable(v: View): Option<real> {
    match v.content
    case NumberContent(_, n) => Some(n)
    case StringContent(_) => None
    case FormulaContent(_, _) => if v.error then None else v.value
  }

  /** The value of a referenced id; a blank id (no cell) has none. */
  function ValueOf(cells: map<Id, View>, id: Id): Option<real> {
    if id in cells then Usable(cells[id]) else None
  }

  /** The four operators on exact reals. Java's double division by zero gives an
      infinity or NaN and is not an evaluation error; the quotient is taken as 0.0. */
  function Apply(op: Op, a: real, b: real): real {
    match op
    case Plus => a + b
    case Minus => a - b
    case Times => a * b
    case Divide => if b == 0.0 then 0.0 else a / b
  }

  /** Cell.evalFormulaTree: post-order evaluation; None stands for the
      EvalFormulaException raised at an unusable reference. */
  function EvalFormulaTree(e: Expr, cells: map<Id, View>): Option<real> {
    match e
    case Lit(x) => Some(x)
    case Ref(id) => ValueOf(cells, id)
    case Negate(a) =>
      (match EvalFormulaTree(a, cells)
       case Some(x) => Some(-x)
       case None => None)
    case Binary(op, a, b) =>
      (match (EvalFormulaTree(a, cells), EvalFormulaTree(b, cells))
       case (Some(x), Some(y)) => Some(Apply(op, x, y))
       case _ => None)
  }

  /** Evaluation fails exactly when some referenced id is blank, a string cell or a
      formula cell in error. */
  lemma {:induction false} EvalFailsIff(e: Expr, cells: map<Id, View>)
    ensures EvalFormulaTree(e, cells).None? <==> exists r :: r in Refs(e) && ValueOf(cells, r).None?
  {
    match e
    case Lit(_) =>
    case Ref(id) =>
      assert id in Refs(e);
    case Negate(a) =>
      EvalFailsIff(a, cells);
    case Binary(_, a, b) =>
      EvalFailsIff(a, cells);
      EvalFailsIff(b, cells);
  }

  /** Evaluation reads nothing but the referenced ids. */
  lemma {:induction false} EvalDependsOnRefs(e: Expr, v: map<Id, View>, w: map<Id, View>)
    requires forall r | r in Refs(e) :: ValueOf(v, r) == ValueOf(w, r)
    ensures EvalFormulaTree(e, v) == EvalFormulaTree(e, w)
  {
    match e
    case Lit(_) =>
    case Ref(id) =>
    case Negate(a) =>
      EvalDependsOnRefs(a, v, w);
    case Binary(_, a, b) =>
      EvalDependsOnRefs(a, v, w);
      EvalDependsOnRefs(b, v, w);
  }

  /** Cell.updateValue on a snapshot: formulas take the evaluated value or go into
      error; number and string cells are left alone. */
  function Refresh(v: View, cells: map<Id, View>): (r: View)
    ensures r.content == v.content
    ensures !v.content.FormulaContent? ==> r == v
    ensures v.content.FormulaContent? ==>
              (r.error <==> EvalFormulaTree(v.content.tree, cells).None?) &&
              r.value == EvalFormulaTree(v.content.tree, cells)
    ensures ValidView(v) ==> ValidView(r)
  {
    match v.content
    case FormulaContent(_, tree) =>
      (match EvalFormulaTree(tree, cells)
       case Some(x) => View(v.content, Some(x), false, Shown(x))
       case None => View(v.content, None, true, ErrorText))
    case _ => v
  }

  lemma RefreshDependsOnRefs(c: View, v: map<Id, View>, w: map<Id, View>)
    requires forall r | r in ContentRefs(c.content) :: ValueOf(v, r) == ValueOf(w, r)
    ensures Refresh(c, v) == Refresh(c, w)
  {
    if c.content.FormulaContent? {
      EvalDependsOnRefs(c.content.tree, v, w);
    }
  }

  /** A cell whose derived fields are what updateValue would compute from `cells`. */
  ghost predicate Settled(cells: map<Id, View>, k: Id) {
    k in cells ==> ValidView(cells[k]) && cells[k] == Refresh(cells[k], cells)
  }

  /** A settled formula that references a blank id shows ERROR (what deleting a
      cell does to the formulas that used it). */
  lemma BlankReferenceErrors(cells: map<Id, View>, k: Id, blank: Id)
    requires k in cells && Settled(cells, k)
    requires blank in ContentRefs(cells[k].content) && blank !in cells
    ensures cells[k].error && cells[k].display == ErrorText
  {
    var tree := cells[k].content.tree;
    assert blank in Refs(tree) && ValueOf(cells, blank).None?;
    EvalFailsIff(tree, cells);
    assert cells[k] == Refresh(cells[k], cells);
  }

  // ---------------------------------------------------------------------------
  // The cell object

  class Cell {
    const content: Content
    var value: Option<real>
    var error: bool
    var display: Display

    function State(): View
      reads this
    {
      View(content, value, error, display)
    }

    ghost predicate Valid()
      reads this
    {
      ValidView(State())
    }

    constructor (c: Content)
      requires Stored(c.text)
      ensures State() == Initial(c) && Valid()
    {
      var v := Initial(c);
      content, value, error, display := c, v.value, v.error, v.display;
    }

    /** Cell.kind. */
    function Kind(): (k: Kind)
      reads this
      ensures k == FormulaKind <==> content.FormulaContent?
      ensures k == NumberKind <==> content.NumberContent?
    {
      content.Kind()
    }

    /** Cell.isError: only a formula can be in error, and exactly when it shows ERROR. */
    function IsError(): (r: bool)
      reads this
      requires Valid()
      ensures r ==> content.FormulaContent?
      ensures r <==> display == ErrorText
    {
      error
    }

    /** Cell.displayString: the contents for number and string cells, ERROR or the
        value for formulas. */
    function DisplayString(): (d: Display)
      reads this
      requires Valid()
      ensures !content.FormulaContent? ==> d == Raw(content.text)
      ensures content.FormulaContent? ==> (d == ErrorText <==> error)
      ensures content.FormulaContent? && !error ==> d == Shown(value.value)
    {
      display
    }

    /** Cell.numberValue: the number, the formula's value, or null for strings and
        formulas in error. */
    function NumberValue(): (r: Option<real>)
      reads this
      requires Valid()
      ensures content.StringContent? ==> r == None
      ensures content.NumberContent? ==> r == Some(content.number)
      ensures content.FormulaContent? ==> (r.None? <==> error)
    {
      value
    }

    /** Cell.contents: the trimmed text as entered, for every kind. */
    function Contents(): (r: string)
      reads this
      requires Valid()
      ensures r == content.text
      ensures r != "" && Trim(r) == r
    {
      StoredIsTrimmed(content.text);
      content.text
    }

    /** Cell.getUpstreamIDs: nothing for number and string cells, the referenced ids
        for a formula. */
    function UpstreamIds(): (r: set<Id>)
      reads this
      ensures !content.FormulaContent? ==> r == {}
      ensures content.FormulaContent? ==> r == Refs(content.tree)
    {
      ContentRefs(content)
    }

    /** Cell.updateValue: re-evaluate a formula against the map (as it stood before
        the call); never fails, at worst leaves the cell in error. */
    method UpdateValue(cellMap: map<Id, Cell?>)
      requires Valid()
      modifies this
      ensures Valid()
      ensures State() == Refresh(old(State()), old(Snapshot(cellMap)))
    {
      if content.FormulaContent? {
        var r := EvalFormulaTree(content.tree, Snapshot(cellMap));
        match r
        case Some(x) =>
          value, error, display := Some(x), false, Shown(x);
        case None =>
          value, error, display := None, true, ErrorText;
      }
    }
  }

  datatype MakeResult = NoCell | Invalid | Made(cell: Cell)

  /** Cell.make: null for blank contents, a failure for a formula that does not
      parse, otherwise a new cell in its initial state. */
  method Make(contents: string, reader: Reader) returns (r: MakeResult)
    ensures r.NoCell? <==> Classify(contents, reader).Blank?
    ensures r.Invalid? <==> Classify(contents, reader).Malformed?
    ensures r.Made? ==> Classify(contents, reader).Parsed? && fresh(r.cell) && r.cell.Valid() &&
                        r.cell.State() == Initial(Classify(contents, reader).content)
  {
    match Classify(contents, reader)
    case Blank =>
      r := NoCell;
    case Malformed =>
      r := Invalid;
    case Parsed(c) =>
      ParsedIsValid(contents, reader);
      var cell := new Cell(c);
      r := Made(cell);
  }

  /** The cells of a map as snapshots; an id mapped to null is blank. */
  function Snapshot(m: map<Id, Cell?>): (v: map<Id, View>)
    reads m.Values
    ensures forall k :: k in v <==> k in m && m[k] != null
    ensures forall k | k in m && m[k] != null :: v[k] == m[k].State()
  {
    map k | k in m && m[k] != null :: m[k].State()
  }
}
