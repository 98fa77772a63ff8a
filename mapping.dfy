/**
 * The verdicts of the UTS #46 mapping table and `Mapping::of`, which
 * binary-searches the generated table of (inclusive range, verdict) rows for
 * the row containing a code point.
 *
 * The generated rows are not part of this model: the table is a parameter,
 * and what the library relies on of it is stated as predicates (rows
 * ascending and disjoint, none touching ASCII, none a deviation, and no gap
 * from U+0080 to U+10FFFF other than the surrogates).
 */
module MappingTable {
  import opened Wrappers
  import opened Text

  /** The verdict for a code point (`Mapping`). */
  datatype Mapping = Valid | Ignored | Mapped(to: string) | Disallowed | Deviation

  /** One row of the table: the code points `start..=end` and their verdict. */
  datatype Row = Row(start: char, end: char, mapping: Mapping)

  predicate Contains(row: Row, c: char) {
    row.start <= c <= row.end
  }

  datatype Ordering = Less | Equal | Greater

  /**
   * The comparator `Mapping::of` hands to `binary_search_by`: where the row
   * lies with respect to `c`.
   */
  function Compare(row: Row, c: char): (o: Ordering)
    ensures o == Equal <==> Contains(row, c)
    ensures o == Greater <==> c < row.start
    ensures o == Less <==> row.start <= c && row.end < c
  {
    if Contains(row, c) then Equal
    else if c < row.start then Greater
    else Less
  }

  /** Every row is a non-empty range, and each lies wholly below the next. */
  predicate Ascending(t: seq<Row>) {
    (forall i | 0 <= i < |t| :: t[i].start <= t[i].end) &&
    (forall i, j | 0 <= i < j < |t| :: t[i].end < t[j].start)
  }

  /**
   * A binary search over the rows `lo..hi` with the comparator of `of`: the
   * index of a row the comparator calls `Equal`, if the search meets one. It
   * need not probe in the order `binary_search_by` does; on an `Ascending`
   * table its result is the unique row containing `c` (`SearchFinds`), which
   * is all `binary_search_by` promises here.
   */
  function Search(t: seq<Row>, c: char, lo: nat, hi: nat): (r: Option<nat>)
    requires lo <= hi <= |t|
    ensures r.Some? ==> lo <= r.value < hi && Contains(t[r.value], c)
    decreases hi - lo
  {
    if lo == hi then None
    else
      var mid := lo + (hi - lo) / 2;
      match Compare(t[mid], c)
      case Equal => Some(mid)
      case Greater => Search(t, c, lo, mid)
      case Less => Search(t, c, mid + 1, hi)
  }

  /** `Mapping::of`: the verdict of the row the search finds. */
  function Of(t: seq<Row>, c: char): (r: Option<Mapping>)
  {
    match Search(t, c, 0, |t|)
    case None => None
    case Some(i) => if i < |t| then Some(t[i].mapping) else None
  }

  /** In an ascending table, the search finds every row that contains `c`. */
  lemma {:induction false} SearchFinds(t: seq<Row>, c: char, lo: nat, hi: nat, i: nat)
    requires Ascending(t) && lo <= i < hi <= |t| && Contains(t[i], c)
    ensures Search(t, c, lo, hi) == Some(i)
    decreases hi - lo
  {
    var mid := lo + (hi - lo) / 2;
    assert lo <= mid < hi;
    if i < mid {
      assert t[i].end < t[mid].start;
      assert Compare(t[mid], c) == Greater;
      SearchFinds(t, c, lo, mid, i);
    } else if mid < i {
      assert t[mid].end < t[i].start;
      assert Compare(t[mid], c) == Less;
      SearchFinds(t, c, mid + 1, hi, i);
    } else {
      assert Compare(t[mid], c) == Equal;
    }
  }

  /**
   * Over an ascending table, `Mapping::of` returns exactly the verdict of the
   * unique row containing `c`, and `None` when no row contains it.
   */
  lemma OfFinds(t: seq<Row>, c: char)
    requires Ascending(t)
    ensures forall i | 0 <= i < |t| && Contains(t[i], c) :: Of(t, c) == Some(t[i].mapping)
    ensures Of(t, c).None? <==> forall i | 0 <= i < |t| :: !Contains(t[i], c)
  {
    forall i | 0 <= i < |t| && Contains(t[i], c)
      ensures Of(t, c) == Some(t[i].mapping)
    {
      SearchFinds(t, c, 0, |t|, i);
    }
  }

  // ---------------------------------------------------------------------
  // What the library relies on of the generated table
  // ---------------------------------------------------------------------

  /** No row contains an ASCII code point. */
  predicate NoAscii(t: seq<Row>) {
    forall i | 0 <= i < |t| :: t[i].start as int >= 0x80
  }

  /** No row is a deviation. */
  predicate NoDeviation(t: seq<Row>) {
    forall i | 0 <= i < |t| :: !t[i].mapping.Deviation?
  }

  /** The code point after `c` that is a scalar value, if any. */
  function NextScalar(c: char): (r: Option<char>)
    ensures r.Some? ==> c < r.value
    ensures r.None? <==> c as int == MAX_SCALAR
  {
    if c as int == MAX_SCALAR then None
    else if c as int == 0xD7FF then Some(0xE000 as char)
    else Some((c as int + 1) as char)
  }

  /** The rows run without a gap from U+0080 to U+10FFFF. */
  predicate Gapless(t: seq<Row>) {
    |t| > 0 &&
    t[0].start as int == 0x80 && t[|t| - 1].end as int == MAX_SCALAR &&
    forall i | 0 <= i < |t| - 1 :: NextScalar(t[i].end) == Some(t[i + 1].start)
  }

  /** The generated table, as the library relies on it. */
  predicate WellFormed(t: seq<Row>) {
    Ascending(t) && NoAscii(t) && NoDeviation(t) && Gapless(t)
  }

  /** Every code point from the first row's start up to the end of row `k` lies in one of the rows `0..=k`. */
  lemma {:induction false} CoveredUpTo(t: seq<Row>, k: nat, c: char) returns (i: nat)
    requires Ascending(t) && Gapless(t) && k < |t| && t[0].start <= c <= t[k].end
    ensures i <= k && Contains(t[i], c)
  {
    if c < t[k].start {
      assert NextScalar(t[k - 1].end) == Some(t[k].start);
      i := CoveredUpTo(t, k - 1, c);
    } else {
      i := k;
    }
  }

  /** `Mapping::of` returns `None` for every ASCII code point. */
  lemma OfAscii(t: seq<Row>, c: char)
    requires NoAscii(t) && IsAscii(c)
    ensures Of(t, c).None?
  {
  }

  /** `Mapping::of` returns a verdict, and never `Deviation`, for every code point from U+0080 on. */
  lemma OfTotal(t: seq<Row>, c: char)
    requires WellFormed(t) && !IsAscii(c)
    ensures Of(t, c).Some? && !Of(t, c).value.Deviation?
  {
    var i := CoveredUpTo(t, |t| - 1, c);
    OfFinds(t, c);
  }
}
