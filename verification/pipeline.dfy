/** The pure part of one merge run: select cells from the source, then insert
    them into the destination's cell sequence. Loading and saving documents
    are outside the model; a document is represented by its cell sequence. */
module Pipeline {
  import opened Wrappers
  import opened Cells
  import opened Inserter
  import opened Selector

  /** Select from `src` by `sel` and insert into `dst` by `place`. */
  function Merge<P>(src: seq<Cell<P>>, dst: seq<Cell<P>>, sel: SelectArgs, place: PlaceArgs)
    : (r: Result<seq<Cell<P>>, Error>)
    // a failed selection aborts the run with the selection's error
    ensures ExtractCells(src, sel).Err? ==> r == Err(ExtractCells(src, sel).error)
    // on success the destination keeps all its cells, in order, and gains the
    // selected cells as one block
    ensures r.Ok? ==>
      ExtractCells(src, sel).Ok? && IsSpliceOf(r.value, dst, ExtractCells(src, sel).value)
    // no cell is invented
    ensures r.Ok? ==> forall c :: c in r.value ==> c in dst || c in src
    ensures r.Ok? ==> |dst| <= |r.value| <= |dst| + |src|
    // after a good selection, the selected cells are placed exactly as the
    // placement arguments say
    ensures ExtractCells(src, sel).Ok? ==>
      r == InsertCells(dst, ExtractCells(src, sel).value, place)
    // after a good selection, the only failure is a placement id naming no
    // destination cell
    ensures ExtractCells(src, sel).Ok? ==>
      (r.Err? <==>
        || (PlaceBeforeWins(place) && Unresolved(dst, place.before.value))
        || (PlaceAfterWins(place) && Unresolved(dst, place.after.value)))
  {
    var picked :- ExtractCells(src, sel);
    ExtractDrawsFromSource(src, sel);
    var out :- InsertCells(dst, picked, place);
    InsertLength(dst, picked, place);
    assert forall c :: c in out ==> c in multiset(dst) + multiset(picked);
    Ok(out)
  }

  /** With a good selection, placing at the top puts the selected cells
      ahead of the destination's, and placing at the bottom puts them after. */
  lemma MergeTopBottom<P>(src: seq<Cell<P>>, dst: seq<Cell<P>>, sel: SelectArgs, place: PlaceArgs)
    requires ExtractCells(src, sel).Ok?
    ensures place.atTop ==> Merge(src, dst, sel, place) == Ok(ExtractCells(src, sel).value + dst)
    ensures !place.atTop && place.atBottom ==>
      Merge(src, dst, sel, place) == Ok(dst + ExtractCells(src, sel).value)
  {
  }

  /** Copying every cell of a notebook to the bottom of an empty one
      reproduces the cells exactly. */
  lemma AllIntoEmpty<P>(src: seq<Cell<P>>, sel: SelectArgs, place: PlaceArgs)
    requires sel.all && place.atBottom && !place.atTop
    ensures Merge(src, [], sel, place) == Ok(src)
  {
  }

  /** Source cells a, b, c; selecting before "c" gives a, b, and placing
      those after "x" in a destination x, y gives x, a, b, y. */
  lemma ScenarioBeforeAfter<P>(a: Cell<P>, b: Cell<P>, c: Cell<P>, x: Cell<P>, y: Cell<P>)
    requires a.id == "a" && b.id == "b" && c.id == "c" && x.id == "x" && y.id == "y"
    ensures ExtractCells([a, b, c], SelectArgs(None, Some(ById("c")), None, false, None, None))
      == Ok([a, b])
    ensures Merge([a, b, c], [x, y],
                  SelectArgs(None, Some(ById("c")), None, false, None, None),
                  PlaceArgs(None, Some(ById("x")), false, false))
      == Ok([x, a, b, y])
  {
    var src := [a, b, c];
    var dst := [x, y];
    var sel := SelectArgs(None, Some(ById("c")), None, false, None, None);
    var place := PlaceArgs(None, Some(ById("x")), false, false);
    assert src[..2] == [a, b];
    assert dst[..1] + [a, b] + dst[1..] == [x, a, b, y];
    assert FirstWithId(src, "c", 2);
    ExtractBeforeId(src, sel, 2);
    assert FirstWithId(dst, "x", 0);
    InsertAfterId(dst, [a, b], place, 0);
  }

  /** Placing before position -1 of x, y, z counts from the end: the block
      lands between y and z. */
  lemma ScenarioNegativeIndex<P>(x: Cell<P>, y: Cell<P>, z: Cell<P>, a: Cell<P>)
    ensures InsertCells([x, y, z], [a], PlaceArgs(Some(ByIndex(-1)), None, false, false))
      == Ok([x, y, a, z])
  {
    var dest := [x, y, z];
    assert dest[..2] + [a] + dest[2..] == [x, y, a, z];
    InsertByIndex(dest, [a], PlaceArgs(Some(ByIndex(-1)), None, false, false), -1);
  }

  /** Top two of a, b, c, d is a, b; bottom two is c, d; bottom zero is all
      four; top minus one drops d. */
  lemma ScenarioTopBottom<P>(a: Cell<P>, b: Cell<P>, c: Cell<P>, d: Cell<P>)
    ensures ExtractCells([a, b, c, d], SelectArgs(None, None, None, false, Some(2), None))
      == Ok([a, b])
    ensures ExtractCells([a, b, c, d], SelectArgs(None, None, None, false, None, Some(2)))
      == Ok([c, d])
    ensures ExtractCells([a, b, c, d], SelectArgs(None, None, None, false, None, Some(0)))
      == Ok([a, b, c, d])
    ensures ExtractCells([a, b, c, d], SelectArgs(None, None, None, false, Some(-1), None))
      == Ok([a, b, c])
  {
    var cells := [a, b, c, d];
    assert cells[..2] == [a, b];
    assert cells[2..] == [c, d];
    assert cells[..3] == [a, b, c];
  }

  /** An explicit list naming "c", an unknown "zz" and index 0 picks a and c,
      in source order, without failing. */
  lemma ScenarioList<P>(a: Cell<P>, b: Cell<P>, c: Cell<P>)
    requires a.id == "a" && b.id == "b" && c.id == "c"
    ensures ExtractCells([a, b, c],
                         SelectArgs(Some([ById("c"), ById("zz"), ByIndex(0)]), None, None, false, None, None))
      == Ok([a, c])
  {
    ScenarioListPositions(a, b, c);
    assert Gather([a, b, c], [0, 2]) == [a, c];
  }

  /** The positions that list names in a, b, c are 0 and 2. */
  lemma ScenarioListPositions<P>(a: Cell<P>, b: Cell<P>, c: Cell<P>)
    requires a.id == "a" && b.id == "b" && c.id == "c"
    ensures Positions([a, b, c], [ById("c"), ById("zz"), ByIndex(0)], 3) == [0, 2]
  {
    var cells := [a, b, c];
    var refs := [ById("c"), ById("zz"), ByIndex(0)];
    assert Matches(0, a, refs);
    assert !Matches(1, b, refs);
    assert Matches(2, c, refs);
    assert Positions(cells, refs, 1) == [0];
    assert Positions(cells, refs, 2) == [0];
  }
}
