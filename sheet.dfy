/**
  Spreadsheet.java: the id-to-cell map and the dependency graph, kept in step by
  setCell and deleteCell, with downstream propagation after every edit. The class
  invariant says the two agree (a formula's references are exactly its upstream
  links) and that every cell is settled: its value, error flag and display are what
  Cell.updateValue would compute from the current map.
*/
module Sheets {
  import opened Options
  import opened Graphs
  import opened Dag
  import opened Cells

  // ---------------------------------------------------------------------------
  // Cell ids: ^[A-Z]+[1-9][0-9]*$

  predicate IsUpper(c: char) {
    'A' <= c <= 'Z'
  }

  predicate IsDigit(c: char) {
    '0' <= c <= '9'
  }

  /** The pattern of Spreadsheet.verifyIDFormat, stated directly: one or more
      capital letters, a non-zero digit, then any digits. */
  ghost predicate MatchesIdPattern(s: string) {
    exists i :: 0 < i < |s| && (forall k | 0 <= k < i :: IsUpper(s[k])) &&
                '1' <= s[i] <= '9' && (forall k | i < k < |s| :: IsDigit(s[k]))
  }

  function LettersEnd(s: string, i: nat): (j: nat)
    requires i <= |s|
    requires forall k | 0 <= k < i :: IsUpper(s[k])
    ensures i <= j <= |s|
    ensures forall k | 0 <= k < j :: IsUpper(s[k])
    ensures j < |s| ==> !IsUpper(s[j])
    decreases |s| - i
  {
    if i < |s| && IsUpper(s[i]) then LettersEnd(s, i + 1) else i
  }

  /** Spreadsheet.verifyIDFormat: true exactly for the ids the pattern accepts. */
  function VerifyIdFormat(id: string): (ok: bool)
    ensures ok <==> MatchesIdPattern(id)
  {
    var i := LettersEnd(id, 0);
    var ok := 0 < i < |id| && '1' <= id[i] <= '9' && forall k | i < k < |id| :: IsDigit(id[k]);
    assert MatchesIdPattern(id) ==> ok by {
      if MatchesIdPattern(id) {
        var i' :| 0 < i' < |id| && (forall k | 0 <= k < i' :: IsUpper(id[k])) &&
                  '1' <= id[i'] <= '9' && (forall k | i' < k < |id| :: IsDigit(id[k]));
        assert !IsUpper(id[i']);
      }
    }
    ok
  }

  // ---------------------------------------------------------------------------
  // The map and the graph agree, and cells stay settled

  ghost function RefsAt(cells: map<Id, View>, k: Id): set<Id> {
    if k in cells then ContentRefs(cells[k].content) else {}
  }

  /** The upstream links of every id are the references of its formula (none for a
      blank id or a number or string cell). */
  ghost predicate Coherent(cells: map<Id, View>, up: LinkMap) {
    forall k :: Get(up, k) == RefsAt(cells, k)
  }

  ghost predicate ClosedBelow(down: LinkMap, s: set<Id>) {
    forall a, b | a in s && Edge(down, a, b) :: b in s
  }

  ghost predicate SettledOn(cells: map<Id, View>, s: set<Id>) {
    forall k | k in s :: Settled(cells, k)
  }

  ghost predicate AllSettled(cells: map<Id, View>) {
    forall k :: Settled(cells, k)
  }

  /** Outside `s`, the same ids are present and hold the same views. */
  ghost predicate AgreeOutside(v: map<Id, View>, w: map<Id, View>, s: set<Id>) {
    forall j | j !in s :: (j in v <==> j in w) && (j in w ==> w[j] == v[j])
  }

  /** The same ids are present, with the same contents. */
  ghost predicate SameContents(v: map<Id, View>, w: map<Id, View>) {
    (forall k :: k in v <==> k in w) && forall k | k in w :: w[k].content == v[k].content
  }

  /** Apart from `id`, the same ids are present, with the same contents. */
  ghost predicate SameContentsExcept(v: map<Id, View>, w: map<Id, View>, id: Id) {
    forall k | k != id :: (k in v <==> k in w) && (k in w ==> w[k].content == v[k].content)
  }

  /** A change at `id` followed by re-evaluation leaves every other cell's contents alone. */
  lemma ContentsKeptOutside(v0: map<Id, View>, v1: map<Id, View>, v2: map<Id, View>, id: Id)
    requires AgreeOutside(v0, v1, {id}) && SameContents(v1, v2)
    ensures SameContentsExcept(v0, v2, id)
  {
  }

  /** `w` is `v` with the cell at `d` re-evaluated over `v` (Cell.updateValue). */
  ghost predicate RefreshedAt(v: map<Id, View>, w: map<Id, View>, d: Id) {
    && d in v
    && (forall k :: k in v <==> k in w)
    && w[d] == Refresh(v[d], v)
    && forall k | k in w && k != d :: w[k] == v[k]
  }

  /** Contents decide coherence: same ids and same contents keep it. */
  lemma CoherentSameContents(v: map<Id, View>, w: map<Id, View>, up: LinkMap)
    requires Coherent(v, up) && SameContents(v, w)
    ensures Coherent(w, up)
  {
    assert forall k :: RefsAt(w, k) == RefsAt(v, k);
  }

  /** A settled cell stays settled when only cells in a downward-closed set change,
      as long as it is not in that set itself. */
  lemma KeepsSettled(v: map<Id, View>, w: map<Id, View>, g: Graph, s: set<Id>, k: Id)
    requires Inverse(g) && Coherent(w, g.up) && ClosedBelow(g.down, s)
    requires AgreeOutside(v, w, s)
    requires k !in s && Settled(v, k)
    ensures Settled(w, k)
  {
    if k in w {
      forall r | r in ContentRefs(w[k].content) ensures ValueOf(v, r) == ValueOf(w, r) {
        assert r in Get(g.up, k);
        assert Edge(g.up, k, r) <==> Edge(g.down, r, k);
      }
      RefreshDependsOnRefs(w[k], v, w);
    }
  }

  /** Re-evaluating a cell that does not reference itself settles it. */
  lemma SettledAfterRefresh(v: map<Id, View>, w: map<Id, View>, d: Id, up: LinkMap)
    requires Coherent(v, up) && !Edge(up, d, d) && RefreshedAt(v, w, d) && ValidView(v[d])
    ensures Settled(w, d) && Coherent(w, up) && SameContents(v, w)
  {
    forall r | r in ContentRefs(v[d].content) ensures ValueOf(v, r) == ValueOf(w, r) {
      assert r in Get(up, d);
    }
    RefreshDependsOnRefs(v[d], v, w);
    CoherentSameContents(v, w, up);
  }

  /** What lies below `d`, with or without `d`, is closed downward. */
  lemma BelowClosed(down: LinkMap, d: Id)
    ensures ClosedBelow(down, Beneath(down, d))
    ensures ClosedBelow(down, Below(down, d))
  {
    forall a, b | a in Below(down, d) && Edge(down, a, b) ensures b in Beneath(down, d) {
      if a == d { BeneathStep(down, d, b); } else { BeneathClosed(down, d, a, b); }
    }
  }

  /** Re-evaluating the cell `d` and then settling everything below it settles
      `d` too, and keeps every other settled cell settled. */
  lemma RefreshThenBelow(v1: map<Id, View>, v2: map<Id, View>, v3: map<Id, View>, g: Graph, d: Id)
    requires Graphs.Valid(g) && Coherent(v1, g.up) && Coherent(v3, g.up)
    requires RefreshedAt(v1, v2, d) && ValidView(v1[d])
    requires AgreeOutside(v2, v3, Beneath(g.down, d))
    requires SettledOn(v3, Beneath(g.down, d))
    ensures SettledOn(v3, Below(g.down, d))
    ensures AgreeOutside(v1, v3, Below(g.down, d))
    ensures forall k | k !in Below(g.down, d) && Settled(v1, k) :: Settled(v3, k)
  {
    var below := Beneath(g.down, d);
    var s := Below(g.down, d);
    InverseAcyclic(g);
    NoSelfLoop(g.up, d);
    NotBeneathItself(g.down, d);
    SettledAfterRefresh(v1, v2, d, g.up);
    BelowClosed(g.down, d);
    KeepsSettled(v2, v3, g, below, d);
    forall k | k !in s && Settled(v1, k) ensures Settled(v3, k) {
      KeepsSettled(v1, v3, g, s, k);
    }
  }

  /** What notifyDownstreamOfChange has achieved so far: the cells in `touched`,
      a downward-closed part of what lies below `id`, are settled; no other cell
      has changed, and no cell's contents have. */
  ghost predicate Progress(v0: map<Id, View>, v: map<Id, View>, down: LinkMap, id: Id, touched: set<Id>) {
    && touched <= Beneath(down, id)
    && ClosedBelow(down, touched)
    && SameContents(v0, v)
    && AgreeOutside(v0, v, touched)
    && SettledOn(v, touched)
  }

  /** The cell `d` with everything below it. */
  ghost function Below(down: LinkMap, d: Id): set<Id> {
    {d} + Beneath(down, d)
  }

  /** One turn of the loop in notifyDownstreamOfChange: settling a downstream cell
      `d` and everything below it extends the settled part by `Below(down, d)`. */
  lemma StepProgress(v0: map<Id, View>, v1: map<Id, View>, v3: map<Id, View>,
                     down: LinkMap, id: Id, touched: set<Id>, d: Id)
    requires Progress(v0, v1, down, id, touched) && Edge(down, id, d)
    requires SameContents(v1, v3) && AgreeOutside(v1, v3, Below(down, d))
    requires SettledOn(v3, Below(down, d))
    requires forall k | k !in Below(down, d) && Settled(v1, k) :: Settled(v3, k)
    ensures Progress(v0, v3, down, id, touched + Below(down, d))
  {
    BeneathStep(down, id, d);
    BelowClosed(down, d);
  }

  /** Every downstream cell in `done` has been settled with all below it. */
  ghost predicate Covers(down: LinkMap, touched: set<Id>, done: set<Id>) {
    forall d | d in done :: Below(down, d) <= touched
  }

  lemma CoversStep(down: LinkMap, touched: set<Id>, done: set<Id>, d: Id)
    requires Covers(down, touched, done)
    ensures Covers(down, touched + Below(down, d), done + {d})
  {
  }

  /** Once every downstream cell of `id` is covered, all below `id` is. */
  lemma CoversAll(down: LinkMap, id: Id, touched: set<Id>, done: set<Id>)
    requires Covers(down, touched, done)
    requires forall d | Edge(down, id, d) :: d in done
    ensures Beneath(down, id) <= touched
  {
    forall y | y in Beneath(down, id) ensures y in touched {
      var d :| Edge(down, id, d) && (y == d || y in Beneath(down, d)) by { BeneathSplit(down, id, y); }
      assert y in Below(down, d);
    }
  }

  /** In a settled sheet, every formula that references an empty id shows ERROR. */
  lemma BlankReferencesError(cells: map<Id, View>, id: Id)
    requires AllSettled(cells) && id !in cells
    ensures forall k | k in cells && id in ContentRefs(cells[k].content) :: cells[k].error
  {
    forall k | k in cells && id in ContentRefs(cells[k].content) ensures cells[k].error {
      assert Settled(cells, k);
      BlankReferenceErrors(cells, k, id);
    }
  }

  /** Deleting the cell at `id` and detaching it from the graph keeps the map and
      the graph in agreement. */
  lemma CoherentAfterDelete(v0: map<Id, View>, v2: map<Id, View>, g: Graph, id: Id)
    requires Coherent(v0, g.up) && AgreeOutside(v0, v2, {id}) && id !in v2
    ensures Coherent(v2, Detach(g, id).up)
  {
    forall k ensures Get(Detach(g, id).up, k) == RefsAt(v2, k) {
      if k != id {
        assert RefsAt(v0, k) == RefsAt(v2, k);
      }
    }
  }

  /** Installing a cell at `id` with its references as the new upstream set keeps
      the map and the graph in agreement. */
  lemma CoherentAfterPlace(v0: map<Id, View>, v1: map<Id, View>, g: Graph, id: Id)
    requires Coherent(v0, g.up) && AgreeOutside(v0, v1, {id}) && id in v1
    ensures Coherent(v1, Place(g, id, ContentRefs(v1[id].content)).up)
  {
    var h := Place(g, id, ContentRefs(v1[id].content));
    forall k ensures Get(h.up, k) == RefsAt(v1, k) {
      if k != id {
        assert RefsAt(v0, k) == RefsAt(v1, k);
      }
    }
  }

  /** Every view obeys the per-kind rules of a cell. */
  ghost predicate AllValid(cells: map<Id, View>) {
    forall k | k in cells :: ValidView(cells[k])
  }

  lemma RefreshKeepsValid(v: map<Id, View>, w: map<Id, View>, d: Id)
    requires AllValid(v) && RefreshedAt(v, w, d)
    ensures AllValid(w)
  {
  }

  /** The views a map of cell objects holds, pointwise. */
  lemma SnapshotIs(m: map<Id, Cell?>, v: map<Id, View>)
    requires forall k :: k in v <==> k in m && m[k] != null
    requires forall k | k in m && m[k] != null :: v[k] == m[k].State()
    ensures Snapshot(m) == v
  {
  }

  /** `v` is what the cell objects of `m` hold; an id mapped to null is empty. */
  ghost predicate MirrorOf(m: map<Id, Cell?>, v: map<Id, View>)
    reads m.Values
  {
    && (forall k :: k in v <==> k in m && m[k] != null)
    && (forall k | k in m && m[k] != null :: v[k] == m[k].State())
  }

  /** No cell object is shared by two ids. */
  ghost predicate DistinctCells(m: map<Id, Cell?>) {
    forall a, b | a in m && b in m && a != b && m[a] != null :: m[a] != m[b]
  }

  lemma MirrorRemove(m: map<Id, Cell?>, v: map<Id, View>, id: Id)
    requires MirrorOf(m, v) && DistinctCells(m)
    ensures MirrorOf(m - {id}, v - {id}) && DistinctCells(m - {id})
  {
  }

  lemma MirrorPut(m: map<Id, Cell?>, v: map<Id, View>, id: Id, x: Cell?)
    requires MirrorOf(m, v) && DistinctCells(m) && id !in m
    requires x == null || forall k | k in m :: m[k] != x
    ensures MirrorOf(m[id := x], if x == null then v else v[id := x.State()])
    ensures DistinctCells(m[id := x])
  {
  }

  /** Putting back what `id` held (null when it held nothing) leaves the views as
      they are. */
  lemma MirrorRestore(m: map<Id, Cell?>, v: map<Id, View>, id: Id, x: Cell?)
    requires MirrorOf(m, v) && DistinctCells(m)
    requires x == (if id in m then m[id] else null)
    ensures MirrorOf(m[id := x], v) && DistinctCells(m[id := x])
  {
  }

  /** Storing a fresh cell object under `id`, whether or not `id` held one. */
  lemma MirrorSet(m: map<Id, Cell?>, v: map<Id, View>, id: Id, x: Cell)
    requires MirrorOf(m, v) && DistinctCells(m)
    requires forall k | k in m :: m[k] != x
    ensures MirrorOf(m[id := x], v[id := x.State()]) && DistinctCells(m[id := x])
  {
    MirrorRemove(m, v, id);
    MirrorPut(m - {id}, v - {id}, id, x);
    PutAfterRemove(m, id, x);
    PutAfterRemove(v, id, x.State());
  }

  /** Taking a key out and putting a value back under it. */
  lemma PutAfterRemove<V>(m: map<Id, V>, id: Id, x: V)
    ensures (m - {id})[id := x] == m[id := x]
    ensures id in m ==> m[id := m[id]] == m
    ensures id !in m ==> m - {id} == m
  {
  }

  /** Agreement outside two sets composes to agreement outside their union. */
  lemma AgreeTrans(u: map<Id, View>, v: map<Id, View>, w: map<Id, View>, s: set<Id>, t: set<Id>)
    requires AgreeOutside(u, v, s) && AgreeOutside(v, w, t)
    ensures AgreeOutside(u, w, s + t)
  {
  }

  /** The whole sheet is settled again after an edit at `id` once `id` is settled
      and everything below `id` has been settled afresh (setCell, deleteCell). */
  lemma EditSettles(v0: map<Id, View>, v2: map<Id, View>, v3: map<Id, View>, g: Graph, id: Id)
    requires Graphs.Valid(g) && Coherent(v2, g.up) && Coherent(v3, g.up)
    requires AllSettled(v0) && AgreeOutside(v0, v2, {id}) && Settled(v2, id)
    requires AgreeOutside(v2, v3, Beneath(g.down, id)) && SettledOn(v3, Beneath(g.down, id))
    ensures AllSettled(v3)
  {
    var below := Beneath(g.down, id);
    var s := {id} + below;
    InverseAcyclic(g);
    BelowClosed(g.down, id);
    NotBeneathItself(g.down, id);
    forall k ensures Settled(v3, k) {
      if k !in below {
        if k != id {
          KeepsSettled(v0, v2, g, s, k);
        }
        KeepsSettled(v2, v3, g, below, k);
      }
    }
  }

  // ---------------------------------------------------------------------------
  // The spreadsheet

  /** The exceptions setCell throws, as values. */
  datatype SheetError =
    | BadId(id: Id)
    | BadContents(contents: string)
    | CycleError(id: Id, contents: string, path: seq<Id>)

  datatype Status = Done | Failed(error: SheetError)

  class Spreadsheet {
    var cells: map<Id, Cell?>
    const dag: Dag
    /** What each non-empty id holds, kept in step with the cell objects. */
    ghost var views: map<Id, View>

    ghost predicate Mirrors()
      reads this, cells.Values
    {
      MirrorOf(cells, views)
    }

    ghost predicate Distinct()
      reads this
    {
      DistinctCells(cells)
    }

    ghost predicate WellFormed()
      reads this, dag, cells.Values
    {
      dag.Valid() && Distinct() && Mirrors() && AllValid(views) && Coherent(views, dag.upstream)
    }

    ghost predicate Valid()
      reads this, dag, cells.Values
    {
      WellFormed() && AllSettled(views)
    }

    constructor ()
      ensures Valid() && views == map[]
    {
      cells := map[];
      views := map[];
      dag := new Dag();
      new;
      assert forall k :: RefsAt(map[], k) == {};
    }

    /** Spreadsheet.getCellDisplayString: "" for an empty id; for a formula, ERROR
        exactly when its tree cannot be evaluated over the current sheet. */
    function GetCellDisplayString(id: Id): (d: Display)
      reads this, dag, cells.Values
      requires Valid()
      ensures id !in views ==> d == Raw("")
      ensures id in views ==> d == views[id].display
      ensures id in views && !views[id].content.FormulaContent? ==> d == Raw(views[id].content.text)
      ensures id in views && views[id].content.FormulaContent? ==>
                (d == ErrorText <==> EvalFormulaTree(views[id].content.tree, views).None?)
      ensures id in views && views[id].content.FormulaContent? && d != ErrorText ==>
                d == Shown(EvalFormulaTree(views[id].content.tree, views).value)
    {
      assert Settled(views, id);
      if id in cells && cells[id] != null then cells[id].DisplayString() else Raw("")
    }

    /** Spreadsheet.getCellContents: "" for an empty id, else the trimmed text. */
    function GetCellContents(id: Id): (s: string)
      reads this, dag, cells.Values
      requires Valid()
      ensures id !in views ==> s == ""
      ensures id in views ==> s == views[id].content.text && s != "" && Trim(s) == s
    {
      if id in cells && cells[id] != null then cells[id].Contents() else ""
    }

    /** Spreadsheet.setCell. Empty contents delete the cell. Otherwise a bad id
        or contents that make no cell fail with nothing changed; a formula that
        would close a cycle fails with the graph and every cell as before, and
        the cycle found; else the new cell is installed, its upstream links
        replaced by its references, and it and everything below it re-evaluated.
        The new cell is made before the old one leaves the map. */
    method SetCell(id: Id, contents: string, reader: Reader) returns (r: Status)
      requires Valid()
      modifies this, dag, cells.Values
      ensures Valid()
      ensures contents == "" ==> r == Done && id !in views
      ensures contents == "" && old(id in views) ==> dag.Model() == Detach(old(dag.Model()), id)
      ensures contents == "" && old(id !in views) ==> dag.Model() == old(dag.Model()) && views == old(views)
      ensures contents == "" ==> SameContents(old(views) - {id}, views)
      ensures contents == "" ==> AgreeOutside(old(views), views, Below(dag.downstream, id))
      ensures contents != "" && !VerifyIdFormat(id) ==> r == Failed(BadId(id))
      ensures contents != "" && VerifyIdFormat(id) && !Classify(contents, reader).Parsed? ==>
                r == Failed(BadContents(contents))
      ensures contents != "" && VerifyIdFormat(id) && Classify(contents, reader).Parsed? ==>
                var ups := ContentRefs(Classify(contents, reader).content);
                (r == Done <==> Acyclic(Place(old(dag.Model()), id, ups).up))
      ensures r.Failed? ==> dag.Model() == old(dag.Model()) && views == old(views)
      ensures r.Failed? && r.error.CycleError? ==>
                contents != "" && VerifyIdFormat(id) && Classify(contents, reader).Parsed? &&
                r.error.id == id && r.error.contents == contents &&
                var ups := ContentRefs(Classify(contents, reader).content);
                |r.error.path| >= 2 && r.error.path[0] == id && Last(r.error.path) == id &&
                IsWalk(Place(old(dag.Model()), id, ups).up, r.error.path)
      ensures r == Done && contents != "" ==>
                var c := Classify(contents, reader).content;
                id in views && views[id].content == c &&
                dag.Model() == Place(old(dag.Model()), id, ContentRefs(c)) &&
                AgreeOutside(old(views), views, Below(dag.downstream, id))
      ensures r == Done && contents != "" ==> SameContentsExcept(old(views), views, id)
    {
      if contents == "" {
        DeleteCell(id);
        return Done;
      }
      var oldCell := if id in cells then cells[id] else null;
      if !VerifyIdFormat(id) {
        return Failed(BadId(id));
      }
      var made := Make(contents, reader);
      if !made.Made? {
        return Failed(BadContents(contents));
      }
      r := ReplaceCell(id, contents, oldCell, made.cell, Classify(contents, reader).content);
    }

    /** setCell once `id` is well formed and the new cell is made: `dag.add`, then
        either the old entry back and a cycle error, or the new cell in, evaluated,
        and everything below it re-evaluated. */
    method ReplaceCell(id: Id, contents: string, oldCell: Cell?, cell: Cell, ghost c: Content)
      returns (r: Status)
      requires Valid() && Stored(c.text) && cell.State() == Initial(c)
      requires oldCell == (if id in cells then cells[id] else null)
      requires forall k | k in cells :: cells[k] != cell
      modifies this, dag, cells.Values, cell
      ensures Valid()
      ensures r == Done <==> Acyclic(Place(old(dag.Model()), id, ContentRefs(c)).up)
      ensures r.Failed? ==> dag.Model() == old(dag.Model()) && views == old(views)
      ensures r.Failed? ==> r.error.CycleError? && r.error.id == id && r.error.contents == contents
      ensures r.Failed? && r.error.CycleError? ==>
                |r.error.path| >= 2 && r.error.path[0] == id && Last(r.error.path) == id &&
                IsWalk(Place(old(dag.Model()), id, ContentRefs(c)).up, r.error.path)
      ensures r == Done ==>
                id in views && views[id].content == c &&
                dag.Model() == Place(old(dag.Model()), id, ContentRefs(c)) &&
                AgreeOutside(old(views), views, Below(dag.downstream, id))
      ensures r == Done ==> SameContentsExcept(old(views), views, id)
    {
      ghost var v0 := views;
      ghost var g := dag.Model();
      ghost var st := cell.State();
      var added := PlaceCell(id, oldCell, cell, st);
      if added.Cycle? {
        assert dag.upstream == g.up;
        return Failed(CycleError(id, contents, added.path));
      }
      CoherentAfterPlace(v0, views, g, id);
      ghost var v1 := views;
      CommitCell(id, v0);
      ContentsKeptOutside(v0, v1, views, id);
      return Done;
    }

    /** The tail of a successful setCell: `id` is evaluated, then everything below it;
        `v0` is the sheet before the edit, which differed from now only at `id`. */
    method CommitCell(id: Id, ghost v0: map<Id, View>)
      requires WellFormed() && id in views
      requires AllSettled(v0) && AgreeOutside(v0, views, {id})
      modifies this, cells.Values
      ensures Valid() && cells == old(cells)
      ensures SameContents(old(views), views)
      ensures AgreeOutside(v0, views, Below(dag.downstream, id))
    {
      ghost var v1 := views;
      UpdateCell(id);
      RefreshKeepsValid(v1, views, id);
      ghost var v2 := views;
      NoSelfLoop(dag.upstream, id);
      SettledAfterRefresh(v1, v2, id, dag.upstream);
      NotifyDownstreamOfChange(id);
      ghost var v3 := views;
      AgreeTrans(v0, v1, v2, {id}, {id});
      EditSettles(v0, v2, v3, dag.Model(), id);
      AgreeTrans(v0, v2, v3, {id}, Beneath(dag.downstream, id));
    }

    /** The middle of setCell: `cellMap.remove(id)`, then `dag.add`; on a cycle the
        old entry is put back (a null one if there was none), else the new cell
        goes in, not yet evaluated. `st` is the new cell's state. */
    method PlaceCell(id: Id, oldCell: Cell?, cell: Cell, ghost st: View) returns (r: AddResult)
      requires dag.Valid() && Distinct() && Mirrors()
      requires oldCell == (if id in cells then cells[id] else null)
      requires st == cell.State() && forall k | k in cells :: cells[k] != cell
      modifies this, dag
      ensures dag.Valid() && Distinct() && Mirrors()
      ensures r.Added? <==> Acyclic(Place(old(dag.Model()), id, ContentRefs(st.content)).up)
      ensures r.Cycle? ==> cells == old(cells)[id := oldCell] && views == old(views)
      ensures r.Cycle? ==> dag.Model() == old(dag.Model())
      ensures r.Cycle? ==> |r.path| >= 2 && r.path[0] == id && Last(r.path) == id &&
                           IsWalk(Place(old(dag.Model()), id, ContentRefs(st.content)).up, r.path)
      ensures r.Added? ==> cells == old(cells)[id := cell] && views == old(views)[id := st]
      ensures r.Added? ==> dag.Model() == Place(old(dag.Model()), id, ContentRefs(st.content))
    {
      var ups := cell.UpstreamIds();
      r := dag.Add(id, ups);
      if r.Cycle? {
        RestoreCell(id, oldCell);
        return;
      }
      InstallCell(id, cell);
    }

    /** setCell's `cellMap.put(id, oldCell)` after a cycle: the entry goes back. */
    method RestoreCell(id: Id, oldCell: Cell?)
      requires Distinct() && Mirrors()
      requires oldCell == (if id in cells then cells[id] else null)
      modifies this
      ensures Distinct() && Mirrors()
      ensures cells == old(cells)[id := oldCell] && views == old(views)
    {
      MirrorRestore(cells, views, id, oldCell);
      cells := cells[id := oldCell];
    }

    /** The map half of a successful setCell: `id` now holds `cell`. */
    method InstallCell(id: Id, cell: Cell)
      requires Distinct() && Mirrors()
      requires forall k | k in cells :: cells[k] != cell
      modifies this
      ensures Distinct() && Mirrors()
      ensures cells == old(cells)[id := cell] && views == old(views)[id := cell.State()]
    {
      MirrorSet(cells, views, id, cell);
      cells := cells[id := cell];
      views := views[id := cell.State()];
    }

    /** Spreadsheet.deleteCell: nothing happens for an empty id; otherwise the cell
        goes, `id` is detached from the graph, and every formula below it is
        re-evaluated, so a formula that references `id` directly shows ERROR. */
    method DeleteCell(id: Id)
      requires Valid()
      modifies this, dag, cells.Values
      ensures Valid() && id !in views
      ensures old(id !in views) ==> cells == old(cells) && dag.Model() == old(dag.Model()) && views == old(views)
      ensures old(id in views) ==> cells == old(cells) - {id} && dag.Model() == Detach(old(dag.Model()), id)
      ensures SameContents(old(views) - {id}, views)
      ensures AgreeOutside(old(views), views, Below(dag.downstream, id))
      ensures forall k | k in views && id in ContentRefs(views[k].content) :: views[k].error
    {
      if !(id in cells && cells[id] != null) {
        BlankReferencesError(views, id);
        return;
      }
      ghost var v0 := views;
      RemoveCell(id);
      ghost var v2 := views;
      NotifyDownstreamOfChange(id);
      ghost var v3 := views;
      EditSettles(v0, v2, v3, dag.Model(), id);
      BlankReferencesError(v3, id);
    }

    /** `cellMap.remove(id); dag.remove(id)`: the map and the graph still agree. */
    method RemoveCell(id: Id)
      requires WellFormed()
      modifies this, dag
      ensures WellFormed() && views == old(views) - {id}
      ensures cells == old(cells) - {id} && dag.Model() == Detach(old(dag.Model()), id)
    {
      ghost var v0 := views;
      ghost var g := dag.Model();
      DropCell(id);
      dag.Remove(id);
      CoherentAfterDelete(v0, views, g, id);
    }

    /** The map half of deleteCell: `id` no longer holds a cell. */
    method DropCell(id: Id)
      requires Distinct() && Mirrors()
      modifies this
      ensures Distinct() && Mirrors()
      ensures cells == old(cells) - {id} && views == old(views) - {id}
    {
      MirrorRemove(cells, views, id);
      cells := cells - {id};
      views := views - {id};
    }

    /** `cellMap.get(d).updateValue(cellMap)` for a cell that is present: only
        the view at `d` changes, to its re-evaluation over the sheet before. */
    method UpdateCell(d: Id)
      requires Distinct() && Mirrors() && d in views && ValidView(views[d])
      modifies this, cells[d]
      ensures Distinct() && Mirrors() && cells == old(cells)
      ensures RefreshedAt(old(views), views, d)
    {
      var cell := cells[d];
      SnapshotIs(cells, views);
      cell.UpdateValue(cells);
      views := views[d := cell.State()];
    }

    /** The body of the loop in notifyDownstreamOfChange, for the downstream cell
        `d` of `id`: update `d`, then notify what lies below it. */
    method NotifyOne(id: Id, d: Id)
      requires WellFormed() && Edge(dag.downstream, id, d)
      modifies this, cells.Values
      ensures WellFormed() && cells == old(cells) && SameContents(old(views), views)
      ensures AgreeOutside(old(views), views, Below(dag.downstream, d))
      ensures SettledOn(views, Below(dag.downstream, d))
      ensures forall k | k !in Below(dag.downstream, d) && Settled(old(views), k) :: Settled(views, k)
      decreases Beneath(dag.downstream, id), 0
    {
      ghost var g := dag.Model();
      InverseAcyclic(g);
      BeneathShrinks(g.down, id, d);
      assert id in Get(dag.upstream, d);
      ghost var v1 := views;
      UpdateCell(d);
      RefreshKeepsValid(v1, views, d);
      ghost var v2 := views;
      NoSelfLoop(g.up, d);
      SettledAfterRefresh(v1, v2, d, g.up);
      NotifyDownstreamOfChange(d);
      RefreshThenBelow(v1, v2, views, g, d);
    }

    /** Spreadsheet.notifyDownstreamOfChange: re-evaluates every cell below `id`
        (each one after the cells it reads, by recursion), and no other cell. */
    method NotifyDownstreamOfChange(id: Id)
      requires WellFormed()
      modifies this, cells.Values
      ensures WellFormed() && cells == old(cells) && SameContents(old(views), views)
      ensures AgreeOutside(old(views), views, Beneath(dag.downstream, id))
      ensures SettledOn(views, Beneath(dag.downstream, id))
      decreases Beneath(dag.downstream, id), 1
    {
      ghost var v0 := views;
      ghost var down := dag.downstream;
      var links := dag.GetDownstreamLinks(id);
      var rest := links;
      ghost var touched: set<Id> := {};
      while rest != {}
        invariant rest <= links
        invariant WellFormed() && cells == old(cells)
        invariant Progress(v0, views, down, id, touched)
        invariant Covers(down, touched, links - rest)
        decreases rest
      {
        var d :| d in rest;
        CoversStep(down, touched, links - rest, d);
        rest := rest - {d};
        ghost var v1 := views;
        NotifyOne(id, d);
        StepProgress(v0, v1, views, down, id, touched, d);
        touched := touched + Below(down, d);
      }
      CoversAll(down, id, touched, links);
    }
  }

  // ---------------------------------------------------------------------------
  // setCell as written, when Cell.make rejects the contents

  /** The map and the graph of a sheet, as values. */
  datatype SheetState = SheetState(views: map<Id, View>, graph: Graph)

  /** What Spreadsheet.setCell leaves behind, as written, when `id` is well formed
      and Cell.make throws: `cellMap.remove(id)` has already run, the graph has not
      been touched yet. `None` on the paths where make does not throw. */
  function SetCellAsWritten(s: SheetState, id: Id, contents: string, reader: Reader): (r: Option<SheetState>)
    ensures r.Some? <==> contents != "" && VerifyIdFormat(id) && !Classify(contents, reader).Parsed?
    ensures r.Some? ==> id !in r.value.views && r.value.graph == s.graph &&
                        AgreeOutside(s.views, r.value.views, {id})
  {
    if contents != "" && VerifyIdFormat(id) && !Classify(contents, reader).Parsed? then
      Some(SheetState(s.views - {id}, s.graph))
    else
      None
  }

  /** A failed make on a formula cell that references anything leaves the graph
      claiming references that no cell holds any more. */
  lemma {:induction false} SetCellAsWrittenLosesCoherence(s: SheetState, id: Id, contents: string, reader: Reader)
    requires Coherent(s.views, s.graph.up)
    requires id in s.views && ContentRefs(s.views[id].content) != {}
    requires contents != "" && VerifyIdFormat(id) && !Classify(contents, reader).Parsed?
    ensures var r := SetCellAsWritten(s, id, contents, reader);
            r.Some? && !Coherent(r.value.views, r.value.graph.up)
  {
    var r := SetCellAsWritten(s, id, contents, reader).value;
    assert Get(s.graph.up, id) == ContentRefs(s.views[id].content);
    assert RefsAt(r.views, id) == {};
  }
}
