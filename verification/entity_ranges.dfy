/**
 * The id interval one attribute kind occupies within one dataset
 * (`EntityNumberingRange`). Its source is not part of this model: the
 * operations below are the contract the merge relies on, written out so
 * that it can be reasoned about, not verified behaviour of that class.
 */
module EntityRanges {
  /** The attribute kinds of a view-setup, keyed on in place of the entity's runtime class. */
  datatype Kind = Tile | Channel | Angle | Illumination

  /** Every kind; bounds the kinds a dataset can have a range for. */
  const Kinds: seq<Kind> := [Tile, Channel, Angle, Illumination]

  /** Position of a kind in `Kinds`. */
  function Index(c: Kind): (i: nat)
    ensures i < |Kinds| && Kinds[i] == c
  {
    match c
    case Tile => 0
    case Channel => 1
    case Angle => 2
    case Illumination => 3
  }

  /**
   * `[lo, hi]` is the interval the kind occupies now; `shift` is what has been
   * added to the original ids, so the ids it was built from lay in
   * `[lo - shift, hi - shift]`.
   */
  datatype Range = Range(lo: int, hi: int, shift: int) {
    predicate Valid() { lo <= hi }

    predicate Holds(id: int) { lo <= id <= hi }

    predicate HeldOriginally(id: int) { lo - shift <= id <= hi - shift }
  }

  /** The range of a single entity (`new EntityNumberingRange(e)`). */
  function Singleton(id: int): (r: Range)
    ensures r.Valid() && r.shift == 0
    ensures forall x :: r.Holds(x) <==> x == id
  {
    Range(id, id, 0)
  }

  /**
   * `EntityNumberingRange.merge`: the least interval holding both ranges, as
   * a new range; neither argument is changed.
   */
  function Merge(a: Range, b: Range): (r: Range)
    ensures r.shift == 0
    ensures r.lo <= a.lo && r.lo <= b.lo && a.hi <= r.hi && b.hi <= r.hi
    ensures (r.lo == a.lo || r.lo == b.lo) && (r.hi == a.hi || r.hi == b.hi)
  {
    Range(if a.lo <= b.lo then a.lo else b.lo, if a.hi >= b.hi then a.hi else b.hi, 0)
  }

  /**
   * `setToNextAvailableRange`: moves `r` forward, by the least amount, so that
   * it lies wholly above `occupied`; a range already above it stays put. Only
   * the receiver `r` changes: `occupied`, which may be the very object an
   * earlier file's range is stored as, is left as it was.
   */
  function NextAvailable(r: Range, occupied: Range): (s: Range)
    ensures s.lo > occupied.hi
    ensures s.hi - s.lo == r.hi - r.lo
    ensures s.lo - s.shift == r.lo - r.shift
    ensures s.shift >= r.shift
    ensures s.shift > r.shift ==> s.lo == occupied.hi + 1
  {
    if r.lo <= occupied.hi then
      var delta := occupied.hi + 1 - r.lo;
      Range(r.lo + delta, r.hi + delta, r.shift + delta)
    else
      r
  }

  /** `getRenumberedEntity`: the id an entity gets once its range has moved. */
  function Renumber(r: Range, id: int): (n: int)
    ensures r.HeldOriginally(id) ==> r.Holds(n)
    ensures r.shift == 0 ==> n == id
  {
    id + r.shift
  }
}
