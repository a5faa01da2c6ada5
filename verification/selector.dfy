/** Selection: choosing which source cells to extract. Six optional criteria
    are checked in the fixed order all, explicit list, before, after, top n,
    bottom n; the first one present decides, and with none the selection is a
    usage error. */
module Selector {
  import opened Wrappers
  import opened Cells

  /** The selection arguments exactly as the caller passes them. */
  datatype SelectArgs = SelectArgs(
    refs: Option<seq<CellRef>>,
    before: Option<CellRef>,
    after: Option<CellRef>,
    all: bool,
    topN: Option<int>,
    bottomN: Option<int>)

  /** An explicit list counts only when it is present and non-empty (Python
      list truthiness). */
  predicate ListGiven(a: SelectArgs) { a.refs.Some? && |a.refs.value| > 0 }

  /** Which criterion wins under the priority order. */
  predicate AllWins(a: SelectArgs) { a.all }
  predicate ListWins(a: SelectArgs) { !a.all && ListGiven(a) }
  predicate BeforeWins(a: SelectArgs) { !a.all && !ListGiven(a) && a.before.Some? }
  predicate AfterWins(a: SelectArgs) {
    !a.all && !ListGiven(a) && a.before.None? && a.after.Some?
  }
  predicate TopWins(a: SelectArgs) {
    !a.all && !ListGiven(a) && a.before.None? && a.after.None? && a.topN.Some?
  }
  predicate BottomWins(a: SelectArgs) {
    !a.all && !ListGiven(a) && a.before.None? && a.after.None? && a.topN.None? && a.bottomN.Some?
  }
  predicate NoCriterion(a: SelectArgs) {
    !a.all && !ListGiven(a) && a.before.None? && a.after.None? && a.topN.None? && a.bottomN.None?
  }

  /** The cell at position `i` is named by the list, by its index or its id. */
  predicate Matches<P>(i: nat, c: Cell<P>, refs: seq<CellRef>) {
    ByIndex(i) in refs || ById(c.id) in refs
  }

  /** The positions below `n` whose cells the list names, in increasing order. */
  function Positions<P>(cells: seq<Cell<P>>, refs: seq<CellRef>, n: nat): (pos: seq<nat>)
    requires n <= |cells|
    ensures Increasing(pos) && Below(pos, n)
    ensures forall i :: 0 <= i < n ==> (i in pos <==> Matches(i, cells[i], refs))
    ensures forall x :: x in pos ==> x < n
  {
    if n == 0 then []
    else
      var pre := Positions(cells, refs, n - 1);
      if Matches(n - 1, cells[n - 1], refs) then pre + [n - 1] else pre
  }

  /** `r` consists of exactly those cells the list names, in source order,
      each source position at most once. */
  ghost predicate PicksExactly<P>(r: seq<Cell<P>>, cells: seq<Cell<P>>, refs: seq<CellRef>) {
    exists pos ::
      && Increasing(pos)
      && Below(pos, |cells|)
      && (forall i :: 0 <= i < |cells| ==> (i in pos <==> Matches(i, cells[i], refs)))
      && r == Gather(cells, pos)
  }

  /** The cells selected from `cells` by `sel`. */
  function ExtractCells<P>(cells: seq<Cell<P>>, sel: SelectArgs): (r: Result<seq<Cell<P>>, Error>)
    // every success keeps source cells in source order, none twice
    ensures r.Ok? ==> SubsequenceOf(r.value, cells)
    // failures: no criterion at all, or a string reference naming no cell
    ensures r == Err(UsageError) <==> NoCriterion(sel)
    ensures r.Err? && r.error.NotFound? <==>
      || (BeforeWins(sel) && Unresolved(cells, sel.before.value))
      || (AfterWins(sel) && Unresolved(cells, sel.after.value))
    ensures AllWins(sel) ==> r == Ok(cells)
    ensures ListWins(sel) ==> r.Ok? && PicksExactly(r.value, cells, sel.refs.value)
    ensures BeforeWins(sel) && r.Ok? ==>
      r.value == cells[..PySlice(Resolve(cells, sel.before.value).value, |cells|)]
    ensures AfterWins(sel) && r.Ok? ==>
      r.value == cells[PySlice(Resolve(cells, sel.after.value).value + 1, |cells|)..]
    ensures TopWins(sel) && sel.topN.value >= 0 ==>
      r == Ok(cells[..if sel.topN.value < |cells| then sel.topN.value else |cells|])
    ensures TopWins(sel) && sel.topN.value < 0 ==>
      r == Ok(cells[..if |cells| + sel.topN.value < 0 then 0 else |cells| + sel.topN.value])
    ensures BottomWins(sel) && sel.bottomN.value > 0 ==>
      var m := if sel.bottomN.value < |cells| then sel.bottomN.value else |cells|;
      r == Ok(cells[|cells| - m..])
    ensures BottomWins(sel) && sel.bottomN.value == 0 ==> r == Ok(cells)
    ensures BottomWins(sel) && sel.bottomN.value < 0 ==>
      r == Ok(cells[if -sel.bottomN.value < |cells| then -sel.bottomN.value else |cells|..])
  {
    if sel.all then
      SliceIsSubsequence(cells, 0, |cells|);
      assert cells[0..|cells|] == cells;
      Ok(cells)
    else if ListGiven(sel) then
      var pos := Positions(cells, sel.refs.value, |cells|);
      Ok(Gather(cells, pos))
    else if sel.before.Some? then
      var k :- Resolve(cells, sel.before.value);
      var p := PySlice(k, |cells|);
      SliceIsSubsequence(cells, 0, p);
      Ok(cells[..p])
    else if sel.after.Some? then
      var k :- Resolve(cells, sel.after.value);
      var p := PySlice(k + 1, |cells|);
      SliceIsSubsequence(cells, p, |cells|);
      Ok(cells[p..])
    else if sel.topN.Some? then
      // jupymerge has separate branches for negative and non-negative n,
      // and both take the same slice
      var p := PySlice(sel.topN.value, |cells|);
      SliceIsSubsequence(cells, 0, p);
      Ok(cells[..p])
    else if sel.bottomN.Some? then
      var p := PySlice(-sel.bottomN.value, |cells|);
      SliceIsSubsequence(cells, p, |cells|);
      Ok(cells[p..])
    else
      Err(UsageError)
  }

  /** Selecting before the first cell with a given id yields every cell ahead
      of it, and none of them carries that id. */
  lemma ExtractBeforeId<P>(cells: seq<Cell<P>>, sel: SelectArgs, i: nat)
    requires BeforeWins(sel) && sel.before.value.ById?
    requires FirstWithId(cells, sel.before.value.id, i)
    ensures ExtractCells(cells, sel) == Ok(cells[..i])
    ensures forall c :: c in ExtractCells(cells, sel).value ==> c.id != sel.before.value.id
  {
  }

  /** Selecting after the first cell with a given id yields every cell behind it. */
  lemma ExtractAfterId<P>(cells: seq<Cell<P>>, sel: SelectArgs, i: nat)
    requires AfterWins(sel) && sel.after.value.ById?
    requires FirstWithId(cells, sel.after.value.id, i)
    ensures ExtractCells(cells, sel) == Ok(cells[i + 1..])
  {
  }

  /** An integer `before`/`after` reference is clamped like a Python slice
      bound and never fails. */
  lemma ExtractByIndex<P>(cells: seq<Cell<P>>, sel: SelectArgs, k: int)
    requires (BeforeWins(sel) && sel.before.value == ByIndex(k))
          || (AfterWins(sel) && sel.after.value == ByIndex(k))
    ensures ExtractCells(cells, sel).Ok?
    ensures BeforeWins(sel) && 0 <= k ==>
      ExtractCells(cells, sel).value == cells[..if k < |cells| then k else |cells|]
    ensures AfterWins(sel) && -1 <= k ==>
      ExtractCells(cells, sel).value == cells[if k + 1 < |cells| then k + 1 else |cells|..]
  {
  }

  /** A list entry that names no cell (an index out of range or an unknown id)
      changes nothing: it is silently ignored. */
  lemma {:induction false} UnknownRefIgnored<P>(cells: seq<Cell<P>>, refs: seq<CellRef>, extra: CellRef, n: nat)
    requires n <= |cells|
    requires extra.ByIndex? ==> extra.index < 0 || |cells| <= extra.index
    requires extra.ById? ==> NoCellWithId(cells, extra.id)
    ensures Positions(cells, refs + [extra], n) == Positions(cells, refs, n)
  {
    if n > 0 {
      UnknownRefIgnored(cells, refs, extra, n - 1);
      var c := cells[n - 1];
      assert Matches(n - 1, c, refs + [extra]) == Matches(n - 1, c, refs) by {
        assert ByIndex(n - 1) in refs + [extra] <==> ByIndex(n - 1) in refs;
        assert ById(c.id) in refs + [extra] <==> ById(c.id) in refs;
      }
    }
  }

  /** Adding a list entry that names no cell leaves the selection unchanged
      and, in particular, raises no error. */
  lemma ExtractIgnoresUnknownRef<P>(cells: seq<Cell<P>>, sel: SelectArgs, extra: CellRef)
    requires ListWins(sel)
    requires extra.ByIndex? ==> extra.index < 0 || |cells| <= extra.index
    requires extra.ById? ==> NoCellWithId(cells, extra.id)
    ensures ExtractCells(cells, sel.(refs := Some(sel.refs.value + [extra]))) == ExtractCells(cells, sel)
    ensures ExtractCells(cells, sel).Ok?
  {
    UnknownRefIgnored(cells, sel.refs.value, extra, |cells|);
  }

  /** An empty explicit list counts as not given: selection falls through to
      the next criterion. */
  lemma EmptyListFallsThrough<P>(cells: seq<Cell<P>>, sel: SelectArgs)
    requires sel.refs == Some([])
    ensures ExtractCells(cells, sel) == ExtractCells(cells, sel.(refs := None))
  {
  }

  /** Selected cells come from the source and are never more numerous. */
  lemma ExtractDrawsFromSource<P>(cells: seq<Cell<P>>, sel: SelectArgs)
    requires ExtractCells(cells, sel).Ok?
    ensures forall c :: c in ExtractCells(cells, sel).value ==> c in cells
    ensures |ExtractCells(cells, sel).value| <= |cells|
  {
    SubsequenceElements(ExtractCells(cells, sel).value, cells);
  }
}
