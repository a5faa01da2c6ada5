/** Notebook cells, references to cells, and the sequence arithmetic that the
    selection and placement steps share: Python slice bounds, reference
    resolution, splicing and sub-sequences. */
module Cells {
  import opened Wrappers

  /** One notebook cell: its `metadata.id` and a payload that is never inspected. */
  datatype Cell<P> = Cell(id: string, payload: P)

  /** A cell reference: a position, or the `metadata.id` of a cell. */
  datatype CellRef = ByIndex(index: int) | ById(id: string)

  /** The ways a merge can fail. */
  datatype Error =
    | NotFound(id: string)  // a string reference named no cell
    | UsageError            // no selection criterion was given

  /** Python's normalisation of a slice bound `k` against a sequence of length
      `n`: a negative bound counts from the end, and every bound is clamped
      into `0..n`. Used for both ends of a slice. */
  function PySlice(k: int, n: nat): (p: nat)
    ensures p <= n
    ensures 0 <= k <= n ==> p == k
    ensures n < k ==> p == n
    ensures k < 0 && 0 <= n + k ==> p == n + k
    ensures n + k < 0 ==> p == 0
  {
    if k < 0 then (if n + k < 0 then 0 else n + k)
    else if k < n then k
    else n
  }

  /** `i` is the first position of a cell whose id is `id`. */
  ghost predicate FirstWithId<P>(cells: seq<Cell<P>>, id: string, i: int) {
    && 0 <= i < |cells|
    && cells[i].id == id
    && forall j :: 0 <= j < i ==> cells[j].id != id
  }

  /** No cell of `cells` has id `id`. */
  ghost predicate NoCellWithId<P>(cells: seq<Cell<P>>, id: string) {
    forall j :: 0 <= j < |cells| ==> cells[j].id != id
  }

  /** Linear search, front to back, for the first cell whose id is `id`. */
  function IndexOfId<P>(cells: seq<Cell<P>>, id: string): (r: Option<nat>)
    ensures r.Some? ==> FirstWithId(cells, id, r.value)
    ensures r.None? <==> NoCellWithId(cells, id)
  {
    if |cells| == 0 then None
    else if cells[0].id == id then Some(0)
    else
      match IndexOfId(cells[1..], id)
      case None => None
      case Some(k) => Some(k + 1)
  }

  /** Resolution of a reference against a cell sequence: an integer is used as
      it is, with no bounds check; a string becomes the position of the first
      cell carrying that id, and fails when there is none. */
  function Resolve<P>(cells: seq<Cell<P>>, ref: CellRef): (r: Result<int, Error>)
    ensures ref.ByIndex? ==> r == Ok(ref.index)
    ensures ref.ById? && r.Ok? ==> FirstWithId(cells, ref.id, r.value)
    ensures ref.ById? ==> (r.Err? <==> NoCellWithId(cells, ref.id))
    ensures r.Err? ==> ref.ById? && r.error == NotFound(ref.id)
  {
    match ref
    case ByIndex(k) => Ok(k)
    case ById(s) =>
      match IndexOfId(cells, s)
      case None => Err(NotFound(s))
      case Some(i) => Ok(i)
  }

  /** `ref` is a string reference that names no cell of `cells`. */
  ghost predicate Unresolved<P>(cells: seq<Cell<P>>, ref: CellRef) {
    ref.ById? && NoCellWithId(cells, ref.id)
  }

  /** `ins` placed as one block at position `p` of `dest`. Cutting the block
      back out gives `dest` again, and nothing is gained or lost. */
  function Splice<T>(dest: seq<T>, ins: seq<T>, p: nat): (r: seq<T>)
    requires p <= |dest|
    ensures |r| == |dest| + |ins|
    ensures r[..p] == dest[..p]
    ensures r[p..p + |ins|] == ins
    ensures r[p + |ins|..] == dest[p..]
    ensures r[..p] + r[p + |ins|..] == dest
    ensures multiset(r) == multiset(dest) + multiset(ins)
  {
    assert dest == dest[..p] + dest[p..];
    dest[..p] + ins + dest[p..]
  }

  /** `r` is `dest` with the block `ins` inserted, intact, at some position. */
  ghost predicate IsSpliceOf<T>(r: seq<T>, dest: seq<T>, ins: seq<T>) {
    exists p: nat :: p <= |dest| && r == Splice(dest, ins, p)
  }

  /** Positions that strictly increase: a choice of elements in their order. */
  ghost predicate Increasing(pos: seq<nat>) {
    forall i, j :: 0 <= i < j < |pos| ==> pos[i] < pos[j]
  }

  /** Every position is below `n`. */
  ghost predicate Below(pos: seq<nat>, n: nat) {
    forall i :: 0 <= i < |pos| ==> pos[i] < n
  }

  /** The elements of `s` at the positions `pos`, in the order of `pos`. */
  function Gather<T>(s: seq<T>, pos: seq<nat>): (r: seq<T>)
    requires forall i :: 0 <= i < |pos| ==> pos[i] < |s|
    ensures |r| == |pos|
    ensures forall i :: 0 <= i < |pos| ==> r[i] == s[pos[i]]
  {
    seq(|pos|, i requires 0 <= i < |pos| => s[pos[i]])
  }

  /** `r` keeps some elements of `s`, each at most once, in the order of `s`. */
  ghost predicate SubsequenceOf<T>(r: seq<T>, s: seq<T>) {
    exists pos :: Increasing(pos) && Below(pos, |s|) && r == Gather(s, pos)
  }

  /** The positions `lo`, `lo + 1`, ..., `hi - 1`. */
  function Range(lo: nat, hi: nat): (pos: seq<nat>)
    requires lo <= hi
    ensures |pos| == hi - lo
    ensures forall i :: 0 <= i < |pos| ==> pos[i] == lo + i
  {
    seq(hi - lo, i requires 0 <= i < hi - lo => lo + i)
  }

  /** A contiguous slice is a sub-sequence. */
  lemma SliceIsSubsequence<T>(s: seq<T>, lo: nat, hi: nat)
    requires lo <= hi <= |s|
    ensures SubsequenceOf(s[lo..hi], s)
  {
    var pos := Range(lo, hi);
    assert Gather(s, pos) == s[lo..hi];
  }

  /** A sub-sequence only holds elements of the sequence it was drawn from,
      and is never longer. */
  lemma SubsequenceElements<T>(r: seq<T>, s: seq<T>)
    requires SubsequenceOf(r, s)
    ensures forall x :: x in r ==> x in s
    ensures |r| <= |s|
  {
    var pos :| Increasing(pos) && Below(pos, |s|) && r == Gather(s, pos);
    forall x | x in r
      ensures x in s
    {
      var i :| 0 <= i < |r| && r[i] == x;
      assert s[pos[i]] == x;
    }
    IncreasingBelowLength(pos, |s|);
  }

  /** Strictly increasing positions below `n` number at most `n`. */
  lemma {:induction false} IncreasingBelowLength(pos: seq<nat>, n: nat)
    requires Increasing(pos) && Below(pos, n)
    ensures |pos| <= n
    decreases |pos|
  {
    if |pos| > 0 {
      var last := pos[|pos| - 1];
      var init := pos[..|pos| - 1];
      assert Increasing(init) && Below(init, last);
      IncreasingBelowLength(init, last);
    }
  }
}
