/**
 * The preparation of the verdict table from the lines of the UTS #46
 * `IdnaMappingTable.txt` (`build.rs`): reading a line into a record, dropping
 * the records that lie wholly in ASCII, merging adjacent records with the
 * same verdict, and naming each record's verdict.
 *
 * Reading the file and writing the generated Rust source are not part of
 * this model; the lines are a parameter. A panic of the Rust code (`unwrap`,
 * `expect`) is a precondition here.
 */
module Build {
  import opened Wrappers
  import opened Text
  import opened MappingTable

  /** `Mapping::from_str`: the verdict a status field names; `deviation` counts as `valid`. */
  function FromStr(s: string): (r: Result<Mapping, string>)
  {
    if s == "valid" then Ok(Valid)
    else if s == "ignored" then Ok(Ignored)
    else if s == "disallowed" then Ok(Disallowed)
    else if s == "deviation" then Ok(Valid)
    else Err("no FromStr implementation for Mapping from input '" + s + "'")
  }

  /**
   * `from_str` accepts exactly the four statuses, reads `deviation` as
   * `Valid`, and never yields `Deviation` or `Mapped`.
   */
  lemma FromStrVerdicts(s: string)
    ensures FromStr(s).Ok? <==> s == "valid" || s == "ignored" || s == "disallowed" || s == "deviation"
    ensures FromStr(s) == Ok(Valid) <==> s == "valid" || s == "deviation"
    ensures FromStr(s).Ok? ==> !FromStr(s).value.Deviation? && !FromStr(s).value.Mapped?
    ensures FromStr(s).Err? ==> FromStr(s).error == "no FromStr implementation for Mapping from input '" + s + "'"
  {
  }

  /** One line of the mapping file (`IdnaMap`): a range, its status, and the code points it maps to. */
  datatype IdnaMap = IdnaMap(start: char, end: char, status: string, mapping: string)

  // ---------------------------------------------------------------------
  // The string operations `read_line` uses
  // ---------------------------------------------------------------------

  /** `char::is_whitespace`: the Unicode `White_Space` property. */
  predicate IsWhitespace(c: char) {
    ('\t' <= c <= '\r') || c == ' ' || c == '\U{0085}' || c == '\U{00A0}' || c == '\U{1680}' ||
    ('\U{2000}' <= c <= '\U{200A}') || c == '\U{2028}' || c == '\U{2029}' || c == '\U{202F}' ||
    c == '\U{205F}' || c == '\U{3000}'
  }

  function TrimStart(s: string): (r: string)
    ensures |r| <= |s| && r == s[|s| - |r|..]
    ensures r == [] || !IsWhitespace(r[0])
  {
    if s != [] && IsWhitespace(s[0]) then TrimStart(s[1..]) else s
  }

  function TrimEnd(s: string): (r: string)
    ensures |r| <= |s| && r == s[..|r|]
    ensures r == [] || !IsWhitespace(r[|r| - 1])
  {
    if s != [] && IsWhitespace(s[|s| - 1]) then TrimEnd(s[..|s| - 1]) else s
  }

  /** `str::trim`. */
  function Trim(s: string): string {
    TrimEnd(TrimStart(s))
  }

  /** `str::split` at a character: the parts between its occurrences, at least one. */
  function Split(s: string, sep: char): (r: seq<string>)
    ensures |r| >= 1
    decreases |s|
  {
    match FirstIndexOf(s, sep)
    case None => [s]
    case Some(i) => [s[..i]] + Split(s[i + 1..], sep)
  }

  /** Where `split_once("..")` splits: the first `..` in `s`. */
  function FindDots(s: string): (r: Option<nat>)
    ensures r.Some? ==> r.value + 1 < |s| && s[r.value] == '.' && s[r.value + 1] == '.'
  {
    if |s| < 2 then None
    else if s[0] == '.' && s[1] == '.' then Some(0)
    else match FindDots(s[1..])
      case None => None
      case Some(i) => Some(i + 1)
  }

  /** `x.split_once("..").unwrap_or((x, x))`: the two ends of a range field. */
  function Ends(x: string): (string, string) {
    match FindDots(x)
    case None => (x, x)
    case Some(i) => (x[..i], x[i + 2..])
  }

  /** The length of the word `s` starts with. */
  function WordLength(s: string): (r: nat)
    ensures r <= |s|
    ensures s != [] && !IsWhitespace(s[0]) ==> r > 0
  {
    if s == [] || IsWhitespace(s[0]) then 0 else 1 + WordLength(s[1..])
  }

  /** `str::split_whitespace`: the maximal runs of non-whitespace, in order. */
  function SplitWhitespace(s: string): seq<string>
    decreases |s|
  {
    if s == [] then []
    else if IsWhitespace(s[0]) then SplitWhitespace(s[1..])
    else
      var n := WordLength(s);
      [s[..n]] + SplitWhitespace(s[n..])
  }

  function HexDigit(c: char): (r: Option<nat>)
    ensures r.Some? ==> r.value < 16
  {
    if '0' <= c <= '9' then Some(c as nat - '0' as nat)
    else if 'a' <= c <= 'f' then Some(c as nat - 'a' as nat + 10)
    else if 'A' <= c <= 'F' then Some(c as nat - 'A' as nat + 10)
    else None
  }

  /** The value of a run of hexadecimal digits, most significant first. */
  function HexValue(d: string): Option<nat>
    decreases |d|
  {
    if d == [] then Some(0)
    else match HexValue(d[..|d| - 1])
      case None => None
      case Some(v) =>
        match HexDigit(d[|d| - 1])
        case None => None
        case Some(x) => Some(16 * v + x)
  }

  /**
   * `u32::from_str_radix(s, 16)`, `None` for its errors: an optional `+`,
   * then at least one hexadecimal digit, and a value that fits a `u32`.
   */
  function ParseHex(s: string): (r: Option<nat>)
    ensures r.Some? ==> r.value <= U32_MAX
  {
    if s == [] then None
    else
      var digits := if s[0] == '+' then s[1..] else s;
      if digits == [] then None
      else match HexValue(digits)
        case None => None
        case Some(v) => if v <= U32_MAX then Some(v) else None
  }

  /** The mapping field: each word a code point in hexadecimal, `None` when one is not. */
  function CodePoints(words: seq<string>): Option<string>
  {
    if words == [] then Some([])
    else match ParseHex(words[0])
      case None => None
      case Some(v) =>
        match FromU32(v)
        case None => None
        case Some(c) =>
          match CodePoints(words[1..])
          case None => None
          case Some(rest) => Some([c] + rest)
  }

  // ---------------------------------------------------------------------
  // `read_line`
  // ---------------------------------------------------------------------

  /** The fields of a line: what precedes its last `#`, split at `;`, each trimmed. */
  function Fields(line: string): (r: seq<string>)
    requires '#' in line
    ensures |r| >= 1
  {
    var parts := Split(line[..LastIndexOf(line, '#').value], ';');
    seq(|parts|, k requires 0 <= k < |parts| => Trim(parts[k]))
  }

  /** The two ends of a line's range, as numbers. */
  function Endpoints(line: string): (string, string)
    requires '#' in line
  {
    Ends(Fields(line)[0])
  }

  /**
   * A line `read_line` reads without a panic: it has a `#`, both ends of its
   * range are `u32`s in hexadecimal, and when both are scalar values it has a
   * status and its mapping field, if any, holds code points only.
   */
  predicate Readable(line: string) {
    '#' in line &&
    var f := Fields(line);
    var ends := Endpoints(line);
    ParseHex(ends.0).Some? && ParseHex(ends.1).Some? &&
    (IsScalar(ParseHex(ends.0).value) && IsScalar(ParseHex(ends.1).value) ==>
      |f| >= 2 && (|f| >= 3 ==> CodePoints(SplitWhitespace(f[2])).Some?))
  }

  /** `read_line`: the record of a line, or its range when an end is not a scalar value. */
  function ReadLine(line: string): (r: Result<IdnaMap, (nat, nat)>)
    requires Readable(line)
  {
    var f := Fields(line);
    var ends := Endpoints(line);
    var a := ParseHex(ends.0).value;
    var b := ParseHex(ends.1).value;
    var start := FromU32(a);
    var end := FromU32(b);
    if start.Some? && end.Some? then
      var mapping := if |f| >= 3 then CodePoints(SplitWhitespace(f[2])).value else [];
      Ok(IdnaMap(start.value, end.value, f[1], mapping))
    else
      Err((a, b))
  }

  /**
   * `read_line` fails exactly when an end of the range is not a scalar value,
   * and then with both ends; otherwise the record has that range and the
   * second field as its status.
   */
  lemma ReadLineRange(line: string)
    requires Readable(line)
    ensures var a := ParseHex(Endpoints(line).0).value;
            var b := ParseHex(Endpoints(line).1).value;
            var r := ReadLine(line);
            (r.Err? <==> !IsScalar(a) || !IsScalar(b)) &&
            (r.Err? ==> r.error == (a, b)) &&
            (r.Ok? ==> r.value.start as int == a && r.value.end as int == b && r.value.status == Fields(line)[1])
  {
  }

  /** A range field without `..` is a single code point: the record starts and ends there. */
  lemma ReadLineSingle(line: string)
    requires Readable(line) && FindDots(Fields(line)[0]).None?
    ensures ReadLine(line).Ok? ==> ReadLine(line).value.start == ReadLine(line).value.end
  {
  }

  /** A line with no mapping field maps to nothing. */
  lemma ReadLineNoMapping(line: string)
    requires Readable(line) && |Fields(line)| == 2
    ensures ReadLine(line).Ok? ==> ReadLine(line).value.mapping == []
  {
  }

  /** Everything after the last `#` is a comment: `read_line` does not look at it. */
  lemma ReadLineIgnoresComment(body: string, comment: string)
    requires '#' !in comment
    ensures Fields(body + "#" + comment) == Fields(body + "#")
    ensures Readable(body + "#" + comment) <==> Readable(body + "#")
    ensures Readable(body + "#") ==> ReadLine(body + "#" + comment) == ReadLine(body + "#")
  {
    var x := body + "#" + comment;
    var y := body + "#";
    assert x[|body|] == '#';
    assert forall j | |body| < j < |x| :: x[j] == comment[j - |body| - 1];
    assert LastIndexOf(x, '#') == Some(|body|);
    assert LastIndexOf(y, '#') == Some(|body|);
    assert x[..|body|] == y[..|body|] == body;
  }

  // ---------------------------------------------------------------------
  // `overlaps` and `merge_ranges`
  // ---------------------------------------------------------------------

  /**
   * `overlaps(a, b)`: `a` may be merged into the record `b` before it: `a`
   * starts no later than the code point after `b`'s end, and both have the
   * same status, and the same mapping when they are mapped.
   */
  predicate Overlaps(a: IdnaMap, b: IdnaMap) {
    match FromU32(b.end as nat + 1)
    case None => false
    case Some(next) =>
      a.start <= next && a.status == b.status && (if a.status == "mapped" then a.mapping == b.mapping else true)
  }

  /** A merge never reaches across the surrogates or past the last code point. */
  lemma OverlapsAdjacent(a: IdnaMap, b: IdnaMap)
    requires Overlaps(a, b)
    ensures a.start as int <= b.end as int + 1
    ensures b.end as int != 0xD7FF && b.end as int != MAX_SCALAR
    ensures a.status == b.status && (a.status == "mapped" ==> a.mapping == b.mapping)
  {
  }

  function MaxChar(a: char, b: char): (r: char)
    ensures a <= r && b <= r && (r == a || r == b)
  {
    if a < b then b else a
  }

  /** One iteration of `merge_ranges`: widen the last record to cover `range`, or append `range`. */
  function MergeStep(merged: seq<IdnaMap>, range: IdnaMap): (r: seq<IdnaMap>)
    ensures |merged| <= |r| <= |merged| + 1 && |r| > 0
  {
    if |merged| > 0 && Overlaps(range, merged[|merged| - 1]) then
      var last := merged[|merged| - 1];
      merged[..|merged| - 1] + [last.(end := MaxChar(range.end, last.end))]
    else
      merged + [range]
  }

  /** What `merge_ranges` returns. */
  function Merged(rs: seq<IdnaMap>): (r: seq<IdnaMap>)
    ensures |r| <= |rs|
    ensures |r| == 0 <==> |rs| == 0
    decreases |rs|
  {
    if rs == [] then [] else MergeStep(Merged(rs[..|rs| - 1]), rs[|rs| - 1])
  }

  /** `merge_ranges`. */
  method MergeRanges(ranges: seq<IdnaMap>) returns (merged: seq<IdnaMap>)
    ensures merged == Merged(ranges)
  {
    merged := [];
    for j := 0 to |ranges|
      invariant merged == Merged(ranges[..j])
    {
      var range := ranges[j];
      assert ranges[..j + 1][..j] == ranges[..j];
      if |merged| > 0 {
        var last := merged[|merged| - 1];
        if Overlaps(range, last) {
          merged := merged[..|merged| - 1] + [last.(end := MaxChar(range.end, last.end))];
          continue;
        }
      }
      merged := merged + [range];
    }
    assert ranges[..|ranges|] == ranges;
  }

  /** Whether a record may be merged into the one before it does not depend on where it ends. */
  lemma OverlapsIgnoresEnd(a: IdnaMap, b: IdnaMap, end: char)
    ensures Overlaps(a.(end := end), b) == Overlaps(a, b)
  {
  }

  /** No two consecutive records `merge_ranges` returns could still be merged. */
  lemma {:induction false} MergedApart(rs: seq<IdnaMap>)
    ensures forall k | 0 < k < |Merged(rs)| :: !Overlaps(Merged(rs)[k], Merged(rs)[k - 1])
    decreases |rs|
  {
    if rs != [] {
      var range := rs[|rs| - 1];
      var p := Merged(rs[..|rs| - 1]);
      MergedApart(rs[..|rs| - 1]);
      var m := Merged(rs);
      assert m == MergeStep(p, range);
      if |p| > 0 && Overlaps(range, p[|p| - 1]) {
        var last := p[|p| - 1];
        var widened := last.(end := MaxChar(range.end, last.end));
        assert m == p[..|p| - 1] + [widened];
        assert forall k | 0 <= k < |p| - 1 :: m[k] == p[k];
        if |p| > 1 {
          OverlapsIgnoresEnd(last, p[|p| - 2], MaxChar(range.end, last.end));
          var k := |p| - 1;
          assert !Overlaps(p[k], p[k - 1]);
        }
      } else {
        assert m == p + [range];
        assert forall k | 0 <= k < |p| :: m[k] == p[k];
      }
    }
  }

  /** The start of the last merged record is the start of one of the inputs. */
  lemma {:induction false} MergedLastStart(rs: seq<IdnaMap>) returns (i: nat)
    requires |rs| > 0
    ensures i < |rs| && Merged(rs)[|Merged(rs)| - 1].start == rs[i].start
    decreases |rs|
  {
    var p := rs[..|rs| - 1];
    var m := Merged(p);
    if |m| > 0 && Overlaps(rs[|rs| - 1], m[|m| - 1]) {
      i := MergedLastStart(p);
    } else {
      i := |rs| - 1;
    }
  }

  predicate Covers(x: IdnaMap, c: char) {
    x.start <= c <= x.end
  }

  /** Some record of `rs` contains `c`. */
  predicate Covered(rs: seq<IdnaMap>, c: char) {
    exists i | 0 <= i < |rs| :: Covers(rs[i], c)
  }

  lemma CoveredAppend(a: seq<IdnaMap>, b: seq<IdnaMap>, c: char)
    ensures Covered(a + b, c) <==> Covered(a, c) || Covered(b, c)
  {
    var ab := a + b;
    if Covered(ab, c) {
      var i :| 0 <= i < |ab| && Covers(ab[i], c);
      if i < |a| {
        assert Covers(a[i], c);
      } else {
        assert Covers(b[i - |a|], c);
      }
    }
    if Covered(a, c) {
      var i :| 0 <= i < |a| && Covers(a[i], c);
      assert Covers(ab[i], c);
    }
    if Covered(b, c) {
      var i :| 0 <= i < |b| && Covers(b[i], c);
      assert Covers(ab[i + |a|], c);
    }
  }

  /** The records are in ascending order of their starts. */
  predicate SortedByStart(rs: seq<IdnaMap>) {
    forall i, j | 0 <= i < j < |rs| :: rs[i].start <= rs[j].start
  }

  /** Widening the last record to the end of an overlapping `range` after it covers what the two covered. */
  lemma WidenCovers(last: IdnaMap, range: IdnaMap, c: char)
    requires Overlaps(range, last) && last.start <= range.start
    ensures Covers(last.(end := MaxChar(range.end, last.end)), c) <==> Covers(last, c) || Covers(range, c)
  {
    OverlapsAdjacent(range, last);
  }

  /** Appending a record adds what it covers. */
  lemma CoveredPush(m: seq<IdnaMap>, range: IdnaMap, c: char)
    ensures Covered(m + [range], c) <==> Covered(m, c) || Covers(range, c)
  {
    CoveredAppend(m, [range], c);
    assert [range][0] == range;
  }

  /** One merge step adds what the new record covers, when no merged record starts after it. */
  lemma MergeStepCovers(m: seq<IdnaMap>, range: IdnaMap, c: char)
    requires |m| > 0 ==> m[|m| - 1].start <= range.start
    ensures Covered(MergeStep(m, range), c) <==> Covered(m, c) || Covers(range, c)
  {
    if |m| > 0 && Overlaps(range, m[|m| - 1]) {
      var init := m[..|m| - 1];
      var last := m[|m| - 1];
      var widened := last.(end := MaxChar(range.end, last.end));
      WidenCovers(last, range, c);
      assert m == init + [last];
      CoveredPush(init, last, c);
      CoveredPush(init, widened, c);
    } else {
      CoveredPush(m, range, c);
    }
  }

  /** Dropping the last record keeps the order, and no record starts after the last one. */
  lemma SortedInit(rs: seq<IdnaMap>)
    requires SortedByStart(rs) && |rs| > 0
    ensures SortedByStart(rs[..|rs| - 1])
    ensures forall i | 0 <= i < |rs| :: rs[i].start <= rs[|rs| - 1].start
  {
  }

  /**
   * For input sorted by start, `merge_ranges` covers exactly the code points
   * its input covers.
   */
  lemma {:induction false} MergedCovers(rs: seq<IdnaMap>, c: char)
    requires SortedByStart(rs)
    ensures Covered(Merged(rs), c) <==> Covered(rs, c)
    decreases |rs|
  {
    if rs != [] {
      var p := rs[..|rs| - 1];
      var range := rs[|rs| - 1];
      SortedInit(rs);
      MergedCovers(p, c);
      if |p| > 0 {
        var i := MergedLastStart(p);
      }
      MergeStepCovers(Merged(p), range, c);
      assert rs == p + [range];
      CoveredPush(p, range, c);
    }
  }

  // ---------------------------------------------------------------------
  // `generate_data` and the table `main` writes
  // ---------------------------------------------------------------------

  /** The records `generate_data` keeps: those not lying wholly in ASCII. */
  predicate Kept(x: IdnaMap) {
    !(IsAscii(x.start) && IsAscii(x.end))
  }

  function KeepNonAscii(rs: seq<IdnaMap>): (r: seq<IdnaMap>)
    ensures |r| <= |rs|
    ensures forall k | 0 <= k < |r| :: Kept(r[k])
  {
    if rs == [] then []
    else (if Kept(rs[0]) then [rs[0]] else []) + KeepNonAscii(rs[1..])
  }

  /** The filter keeps exactly the records not lying wholly in ASCII. */
  lemma {:induction false} KeepNonAsciiIs(rs: seq<IdnaMap>)
    ensures forall x :: x in KeepNonAscii(rs) <==> x in rs && Kept(x)
  {
    if rs != [] {
      KeepNonAsciiIs(rs[1..]);
      assert rs == [rs[0]] + rs[1..];
    }
  }

  /** Merging keeps every record off the ASCII range when every input was. */
  lemma {:induction false} MergedKept(rs: seq<IdnaMap>)
    requires forall k | 0 <= k < |rs| :: Kept(rs[k])
    ensures forall k | 0 <= k < |Merged(rs)| :: Kept(Merged(rs)[k])
    decreases |rs|
  {
    if rs != [] {
      var range := rs[|rs| - 1];
      var p := Merged(rs[..|rs| - 1]);
      MergedKept(rs[..|rs| - 1]);
      var m := Merged(rs);
      assert m == MergeStep(p, range);
      if |p| > 0 && Overlaps(range, p[|p| - 1]) {
        var last := p[|p| - 1];
        assert Kept(last);
        assert m == p[..|p| - 1] + [last.(end := MaxChar(range.end, last.end))];
        assert forall k | 0 <= k < |p| - 1 :: m[k] == p[k];
      } else {
        assert m == p + [range];
        assert forall k | 0 <= k < |p| :: m[k] == p[k];
      }
    }
  }

  /** A line `generate_data` reads: once trimmed, neither empty nor a comment. */
  predicate IsRecordLine(x: string) {
    x != [] && x[0] != '#'
  }

  predicate AllReadable(lines: seq<string>) {
    forall k | 0 <= k < |lines| :: IsRecordLine(Trim(lines[k])) ==> Readable(Trim(lines[k]))
  }

  /** The records of the lines from `i` on, with the lines whose range is not made of scalar values skipped. */
  function Records(lines: seq<string>, i: nat): seq<IdnaMap>
    requires i <= |lines| && AllReadable(lines)
    decreases |lines| - i
  {
    if i == |lines| then []
    else
      var x := Trim(lines[i]);
      (if IsRecordLine(x) && ReadLine(x).Ok? then [ReadLine(x).value] else []) + Records(lines, i + 1)
  }

  /** What `generate_data` yields for the lines of the mapping file. */
  function Generated(lines: seq<string>): seq<IdnaMap>
    requires AllReadable(lines)
  {
    Merged(KeepNonAscii(Records(lines, 0)))
  }

  /** No record `generate_data` yields lies wholly in ASCII. */
  lemma GeneratedKept(lines: seq<string>)
    requires AllReadable(lines)
    ensures var g := Generated(lines); forall k | 0 <= k < |g| :: Kept(g[k])
  {
    MergedKept(KeepNonAscii(Records(lines, 0)));
  }

  /** The verdict `main` writes for a record: `Mapped` for a mapped one, otherwise what `from_str` reads. */
  function Verdict(x: IdnaMap): Result<Mapping, string> {
    if x.status == "mapped" then Ok(Mapped(x.mapping)) else FromStr(x.status)
  }

  /** The rows `main` writes; `expect` panics on a status `from_str` does not know. */
  function Table(ms: seq<IdnaMap>): seq<Row>
    requires forall k | 0 <= k < |ms| :: Verdict(ms[k]).Ok?
  {
    seq(|ms|, k requires 0 <= k < |ms| => Row(ms[k].start, ms[k].end, Verdict(ms[k]).value))
  }

  /** No row of the written table is a deviation, which is what makes that branch of the mapping code unreachable. */
  lemma TableNoDeviation(ms: seq<IdnaMap>)
    requires forall k | 0 <= k < |ms| :: Verdict(ms[k]).Ok?
    ensures NoDeviation(Table(ms))
    ensures forall k | 0 <= k < |ms| :: Table(ms)[k].start == ms[k].start && Table(ms)[k].end == ms[k].end
  {
    forall k | 0 <= k < |ms|
      ensures !Table(ms)[k].mapping.Deviation?
    {
      if ms[k].status != "mapped" {
        FromStrVerdicts(ms[k].status);
      }
    }
  }
}
