/** Placement: splicing extracted cells into the destination's cell sequence.
    The four optional placement arguments are checked in the fixed order top,
    bottom, before, after; the first one present decides, and with none the
    cells are appended. */
module Inserter {
  import opened Wrappers
  import opened Cells

  /** The placement arguments exactly as the caller passes them; several may
      be present at once. */
  datatype PlaceArgs = PlaceArgs(
    before: Option<CellRef>,
    after: Option<CellRef>,
    atTop: bool,
    atBottom: bool)

  /** Which argument wins under the priority order. */
  predicate PlaceTopWins(a: PlaceArgs) { a.atTop }
  predicate PlaceBottomWins(a: PlaceArgs) { !a.atTop && a.atBottom }
  predicate PlaceBeforeWins(a: PlaceArgs) { !a.atTop && !a.atBottom && a.before.Some? }
  predicate PlaceAfterWins(a: PlaceArgs) { !a.atTop && !a.atBottom && a.before.None? && a.after.Some? }
  predicate PlaceNoneGiven(a: PlaceArgs) { !a.atTop && !a.atBottom && a.before.None? && a.after.None? }

  /** Insert `ins` into `dest` where `place` says. */
  function InsertCells<P>(dest: seq<Cell<P>>, ins: seq<Cell<P>>, place: PlaceArgs)
    : (r: Result<seq<Cell<P>>, Error>)
    // every success puts the whole block, unchanged, at one position of the
    // destination, whose own cells keep their order
    ensures r.Ok? ==> IsSpliceOf(r.value, dest, ins)
    // the only failure is a string reference naming no destination cell
    ensures r.Err? <==>
      || (PlaceBeforeWins(place) && Unresolved(dest, place.before.value))
      || (PlaceAfterWins(place) && Unresolved(dest, place.after.value))
    ensures r.Err? ==> r.error.NotFound?
    ensures PlaceTopWins(place) ==> r == Ok(ins + dest)
    ensures PlaceBottomWins(place) ==> r == Ok(dest + ins)
    ensures PlaceNoneGiven(place) ==> r == Ok(dest + ins)
    // a winning before/after reference fixes the position: the reference
    // itself for before, the one after it for after, each normalised like a
    // Python slice bound
    ensures PlaceBeforeWins(place) && r.Ok? ==>
      var p := PySlice(Resolve(dest, place.before.value).value, |dest|);
      r.value == dest[..p] + ins + dest[p..]
    ensures PlaceAfterWins(place) && r.Ok? ==>
      var p := PySlice(Resolve(dest, place.after.value).value + 1, |dest|);
      r.value == dest[..p] + ins + dest[p..]
  {
    if place.atTop then
      assert ins + dest == Splice(dest, ins, 0);
      Ok(ins + dest)
    else if place.atBottom then
      assert dest + ins == Splice(dest, ins, |dest|);
      Ok(dest + ins)
    else if place.before.Some? then
      var k :- Resolve(dest, place.before.value);
      Ok(Splice(dest, ins, PySlice(k, |dest|)))
    else if place.after.Some? then
      var k :- Resolve(dest, place.after.value);
      Ok(Splice(dest, ins, PySlice(k + 1, |dest|)))
    else
      assert dest + ins == Splice(dest, ins, |dest|);
      Ok(dest + ins)
  }

  /** Placing before the first cell of the destination puts the block on top. */
  lemma InsertBeforeFirst<P>(dest: seq<Cell<P>>, ins: seq<Cell<P>>, place: PlaceArgs)
    requires PlaceBeforeWins(place) && Resolve(dest, place.before.value) == Ok(0)
    ensures InsertCells(dest, ins, place) == Ok(ins + dest)
  {
  }

  /** Placing after the last cell of the destination appends the block. */
  lemma InsertAfterLast<P>(dest: seq<Cell<P>>, ins: seq<Cell<P>>, place: PlaceArgs)
    requires PlaceAfterWins(place) && Resolve(dest, place.after.value) == Ok(|dest| - 1)
    ensures InsertCells(dest, ins, place) == Ok(dest + ins)
  {
    assert dest[..|dest|] + ins + dest[|dest|..] == dest + ins;
  }

  /** An integer reference past the end is not an error: the block is appended. */
  lemma InsertIndexPastEnd<P>(dest: seq<Cell<P>>, ins: seq<Cell<P>>, place: PlaceArgs, k: int)
    requires |dest| <= k
    requires (PlaceBeforeWins(place) && place.before.value == ByIndex(k))
          || (PlaceAfterWins(place) && place.after.value == ByIndex(k))
    ensures InsertCells(dest, ins, place) == Ok(dest + ins)
  {
    assert dest[..|dest|] + ins + dest[|dest|..] == dest + ins;
  }

  /** An integer before/after reference never fails. A non-negative one
      splices at that position (before) or the next (after), clamped to the
      end; a negative one counts from the end, clamped to the start. */
  lemma InsertByIndex<P>(dest: seq<Cell<P>>, ins: seq<Cell<P>>, place: PlaceArgs, k: int)
    requires (PlaceBeforeWins(place) && place.before.value == ByIndex(k))
          || (PlaceAfterWins(place) && place.after.value == ByIndex(k))
    ensures InsertCells(dest, ins, place).Ok?
    ensures PlaceBeforeWins(place) && 0 <= k < |dest| ==>
      InsertCells(dest, ins, place).value == dest[..k] + ins + dest[k..]
    ensures PlaceBeforeWins(place) && k < 0 && 0 <= |dest| + k ==>
      InsertCells(dest, ins, place).value == dest[..|dest| + k] + ins + dest[|dest| + k..]
    ensures PlaceBeforeWins(place) && |dest| + k < 0 ==>
      InsertCells(dest, ins, place).value == ins + dest
    ensures PlaceAfterWins(place) && -1 <= k < |dest| ==>
      InsertCells(dest, ins, place).value == dest[..k + 1] + ins + dest[k + 1..]
    ensures PlaceAfterWins(place) && k < -1 && 0 <= |dest| + k + 1 ==>
      InsertCells(dest, ins, place).value == dest[..|dest| + k + 1] + ins + dest[|dest| + k + 1..]
  {
    assert dest[..0] + ins + dest[0..] == ins + dest;
  }

  /** Placing before the first cell with a given id: the block ends right
      where that cell now starts, and the cells ahead of it stay ahead. */
  lemma InsertBeforeId<P>(dest: seq<Cell<P>>, ins: seq<Cell<P>>, place: PlaceArgs, i: nat)
    requires PlaceBeforeWins(place) && place.before.value.ById?
    requires FirstWithId(dest, place.before.value.id, i)
    ensures InsertCells(dest, ins, place) == Ok(dest[..i] + ins + dest[i..])
    ensures InsertCells(dest, ins, place).value[i + |ins|] == dest[i]
  {
  }

  /** Placing after the first cell with a given id: the block starts right
      after that cell. */
  lemma InsertAfterId<P>(dest: seq<Cell<P>>, ins: seq<Cell<P>>, place: PlaceArgs, i: nat)
    requires PlaceAfterWins(place) && place.after.value.ById?
    requires FirstWithId(dest, place.after.value.id, i)
    ensures InsertCells(dest, ins, place) == Ok(dest[..i + 1] + ins + dest[i + 1..])
    ensures InsertCells(dest, ins, place).value[i] == dest[i]
    ensures InsertCells(dest, ins, place).value[i + 1..i + 1 + |ins|] == ins
  {
  }

  /** When both `before` and `after` are given, `after` is ignored. */
  lemma BeforeOverridesAfter<P>(dest: seq<Cell<P>>, ins: seq<Cell<P>>, place: PlaceArgs)
    requires PlaceBeforeWins(place)
    ensures InsertCells(dest, ins, place) == InsertCells(dest, ins, place.(after := None))
  {
  }

  /** The result's length is the sum of the two lengths, on every success. */
  lemma InsertLength<P>(dest: seq<Cell<P>>, ins: seq<Cell<P>>, place: PlaceArgs)
    requires InsertCells(dest, ins, place).Ok?
    ensures |InsertCells(dest, ins, place).value| == |dest| + |ins|
    ensures multiset(InsertCells(dest, ins, place).value) == multiset(dest) + multiset(ins)
  {
  }
}
