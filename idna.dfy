/**
 * The UTS #46 mapping step and the domain-to-ASCII conversion: `map_internal`,
 * `map_validate`, `validate` and `to_ascii`.
 *
 * The verdict table is a parameter `t` that the library relies on being
 * `WellFormed`. NFC normalisation belongs to another library: `to_ascii`
 * takes its quick check (`quickYes`, whether `is_nfc_quick` answers `Yes`)
 * and the normaliser (`nfc`) as parameters.
 */
module Idna {
  import opened Wrappers
  import opened Text
  import opened MappingTable
  import Punycode
  import PunycodeFacts

  /** The prefix written before a Punycode label. */
  const PREFIX: string := "xn--"

  datatype ToAsciiError = InvalidCharacter

  /** A string handed back as it came (`Cow::Borrowed`) or built afresh (`Cow::Owned`). */
  datatype Cow = Borrowed(s: string) | Owned(s: string)

  /**
   * The verdict the mapping code sees for `c`: every ASCII code point is
   * `Valid` without a lookup, any other has the verdict of its table row.
   */
  function Resolve(t: seq<Row>, c: char): (m: Mapping)
    requires WellFormed(t)
    ensures !m.Deviation?
    ensures !IsAscii(c) ==> Of(t, c) == Some(m)
  {
    if IsAscii(c) then Valid else OfTotal(t, c); Of(t, c).value
  }

  // ---------------------------------------------------------------------
  // The per-character rule
  // ---------------------------------------------------------------------

  /** What the mapping step writes for `c`, or `None` when `c` is disallowed. */
  function MapChar(t: seq<Row>, c: char): (r: Option<string>)
    requires WellFormed(t)
    ensures r.None? <==> !IsAscii(c) && Of(t, c) == Some(Disallowed)
    ensures IsAscii(c) ==> r == Some([ToAsciiLower(c)])
  {
    if IsAsciiLower(c) || IsAsciiDigit(c) then Some([c])
    else if IsAsciiUpper(c) then Some([ToAsciiLower(c)])
    else match Resolve(t, c)
      case Valid => Some([c])
      case Ignored => Some([])
      case Mapped(r) => Some(r)
      case Disallowed => None
      case Deviation => None
  }

  /** Whether the mapping step leaves `c` as it is, so that no copy is needed. */
  predicate Keeps(t: seq<Row>, c: char)
    requires WellFormed(t)
  {
    IsAsciiLower(c) || IsAsciiDigit(c) || (!IsAsciiUpper(c) && Resolve(t, c).Valid?)
  }

  /** The per-character rule over all of `s`: the concatenation of what each character becomes. */
  function MapAll(t: seq<Row>, s: string): (r: Result<string, ToAsciiError>)
    requires WellFormed(t)
    decreases |s|
  {
    if s == [] then Ok([])
    else match MapAll(t, s[..|s| - 1])
      case Err(e) => Err(e)
      case Ok(p) =>
        match MapChar(t, s[|s| - 1])
        case None => Err(InvalidCharacter)
        case Some(x) => Ok(p + x)
  }

  /** Mapping fails exactly when some character is disallowed. */
  lemma {:induction false} MapAllOk(t: seq<Row>, s: string)
    requires WellFormed(t)
    ensures MapAll(t, s).Ok? <==> forall j | 0 <= j < |s| :: MapChar(t, s[j]).Some?
    decreases |s|
  {
    if s != [] {
      var p := s[..|s| - 1];
      MapAllOk(t, p);
      assert forall j | 0 <= j < |p| :: p[j] == s[j];
    }
  }

  /** Mapping a concatenation maps each part and concatenates the results. */
  lemma {:induction false} MapAllAppend(t: seq<Row>, a: string, b: string)
    requires WellFormed(t)
    ensures MapAll(t, a + b) ==
            match MapAll(t, a)
            case Err(e) => Err(e)
            case Ok(x) =>
              match MapAll(t, b)
              case Err(e) => Err(e)
              case Ok(y) => Ok(x + y)
    decreases |b|
  {
    if b == [] {
      assert a + b == a;
      if MapAll(t, a).Ok? {
        assert MapAll(t, a).value + [] == MapAll(t, a).value;
      }
    } else {
      var c := b[|b| - 1];
      var p := b[..|b| - 1];
      assert (a + b)[..|a + b| - 1] == a + p;
      assert (a + b)[|a + b| - 1] == c;
      MapAllAppend(t, a, p);
      if MapAll(t, a).Ok? && MapAll(t, p).Ok? && MapChar(t, c).Some? {
        AppendAssoc(MapAll(t, a).value, MapAll(t, p).value, MapChar(t, c).value);
      }
    }
  }

  /** A string whose every character is kept maps to itself. */
  lemma {:induction false} MapAllKept(t: seq<Row>, s: string)
    requires WellFormed(t)
    requires forall j | 0 <= j < |s| :: Keeps(t, s[j])
    ensures MapAll(t, s) == Ok(s)
    decreases |s|
  {
    if s != [] {
      var p := s[..|s| - 1];
      assert forall j | 0 <= j < |p| :: p[j] == s[j];
      MapAllKept(t, p);
      assert p + [s[|s| - 1]] == s;
    }
  }

  /**
   * What `map_validate` returns: the input itself when every character is
   * kept, and otherwise the mapped string, or the error of a disallowed
   * character.
   */
  function MapValidated(t: seq<Row>, s: string): (r: Result<Cow, ToAsciiError>)
    requires WellFormed(t)
  {
    if forall j | 0 <= j < |s| :: Keeps(t, s[j]) then Ok(Borrowed(s))
    else Owning(MapAll(t, s))
  }

  /** `Result::map(Cow::Owned)`. */
  function Owning(r: Result<string, ToAsciiError>): (o: Result<Cow, ToAsciiError>)
    ensures o.Ok? <==> r.Ok?
    ensures o.Ok? ==> o.value == Owned(r.value)
  {
    match r
    case Err(e) => Err(e)
    case Ok(x) => Ok(Owned(x))
  }

  /**
   * `map_validate` fails exactly when some character is disallowed; otherwise
   * its string is the per-character rule applied to the input, borrowed
   * exactly when every character is kept.
   */
  lemma MapValidatedIs(t: seq<Row>, s: string)
    requires WellFormed(t)
    ensures var r := MapValidated(t, s);
            (r.Ok? <==> forall j | 0 <= j < |s| :: !(!IsAscii(s[j]) && Of(t, s[j]) == Some(Disallowed))) &&
            (r.Ok? ==> MapAll(t, s).Ok? && r.value.s == MapAll(t, s).value) &&
            (r.Ok? ==> (r.value.Borrowed? <==> forall j | 0 <= j < |s| :: Keeps(t, s[j])))
  {
    MapAllOk(t, s);
    if forall j | 0 <= j < |s| :: Keeps(t, s[j]) {
      MapAllKept(t, s);
    }
  }

  /**
   * When the scan stops at position `j`, the first character it does not
   * keep, `str::find` locates that very character at `j`: no earlier
   * character equals it, since every earlier one is kept.
   */
  lemma FoundAtScan(t: seq<Row>, s: string, j: nat)
    requires WellFormed(t)
    requires j < |s| && !Keeps(t, s[j])
    requires forall k | 0 <= k < j :: Keeps(t, s[k])
    ensures FirstIndexOf(s, s[j]) == Some(j)
  {
  }

  /**
   * Rebuilding from the first character that is not kept: the copied prefix,
   * what that character becomes, and the mapped rest make up `map_validate`'s
   * result.
   */
  lemma RebuiltAt(t: seq<Row>, s: string, j: nat)
    requires WellFormed(t)
    requires j < |s| && !Keeps(t, s[j]) && MapChar(t, s[j]).Some?
    requires forall k | 0 <= k < j :: Keeps(t, s[k])
    ensures MapValidated(t, s) ==
            match MapAll(t, s[j + 1..])
            case Err(e) => Err(e)
            case Ok(x) => Ok(Owned(s[..j] + MapChar(t, s[j]).value + x))
  {
    var head := s[..j + 1];
    assert head[..j] == s[..j] && head[j] == s[j];
    assert forall k | 0 <= k < j :: s[..j][k] == s[k];
    MapAllKept(t, s[..j]);
    assert s == head + s[j + 1..];
    MapAllAppend(t, head, s[j + 1..]);
  }

  // ---------------------------------------------------------------------
  // The methods
  // ---------------------------------------------------------------------

  /** `map_internal`: `prefix` followed by the mapping of `rest`, or the error of its first disallowed character. */
  method MapInternal(t: seq<Row>, prefix: string, rest: string) returns (r: Result<string, ToAsciiError>)
    requires WellFormed(t)
    ensures MapAll(t, rest).Err? ==> r == Err(InvalidCharacter)
    ensures MapAll(t, rest).Ok? ==> r == Ok(prefix + MapAll(t, rest).value)
  {
    var out := prefix;
    for j := 0 to |rest|
      invariant MapAll(t, rest[..j]).Ok? && out == prefix + MapAll(t, rest[..j]).value
    {
      var c := rest[j];
      assert rest[..j + 1][..j] == rest[..j] && rest[..j + 1][j] == c;
      AppendAssoc(prefix, MapAll(t, rest[..j]).value, if MapChar(t, c).Some? then MapChar(t, c).value else []);
      if IsAsciiLower(c) || IsAsciiDigit(c) {
        out := out + [c];
        continue;
      }
      if IsAsciiUpper(c) {
        out := out + [ToAsciiLower(c)];
        continue;
      }
      match Resolve(t, c) {
        case Valid =>
          out := out + [c];
        case Ignored =>
          assert out + [] == out;
        case Mapped(x) =>
          out := out + x;
        case Disallowed =>
          MapAllOk(t, rest);
          return Err(InvalidCharacter);
        case Deviation =>
          assert false;
      }
    }
    assert rest[..|rest|] == rest;
    return Ok(out);
  }

  /**
   * The block `map_validate` runs at the first character `s[j]` it does not
   * keep: find that character, copy what precedes it, write its
   * `replacement`, and map the rest with `map_internal`.
   */
  method RebuildFrom(t: seq<Row>, s: string, j: nat, replacement: string) returns (r: Result<Cow, ToAsciiError>)
    requires WellFormed(t)
    requires j < |s| && !Keeps(t, s[j]) && MapChar(t, s[j]) == Some(replacement)
    requires forall k | 0 <= k < j :: Keeps(t, s[k])
    ensures r == MapValidated(t, s)
  {
    FoundAtScan(t, s, j);
    var i := FirstIndexOf(s, s[j]).value;
    var prefix := s[..i] + replacement;
    var m := MapInternal(t, prefix, s[i + 1..]);
    RebuiltAt(t, s, j);
    if m.Ok? {
      assert m.value == s[..j] + replacement + MapAll(t, s[j + 1..]).value;
      assert MapValidated(t, s) == Ok(Owned(m.value));
    } else {
      assert MapValidated(t, s).Err? && MapValidated(t, s).error.InvalidCharacter?;
    }
    return Owning(m);
  }

  /** `map_validate`: the input itself if every character is kept, otherwise the mapped string. */
  method MapValidate(t: seq<Row>, s: string) returns (r: Result<Cow, ToAsciiError>)
    requires WellFormed(t)
    ensures r == MapValidated(t, s)
  {
    for j := 0 to |s|
      invariant forall k | 0 <= k < j :: Keeps(t, s[k])
    {
      var c := s[j];
      if IsAsciiLower(c) || IsAsciiDigit(c) {
        continue;
      }
      if IsAsciiUpper(c) {
        r := RebuildFrom(t, s, j, [ToAsciiLower(c)]);
        return;
      }
      match Resolve(t, c) {
        case Valid =>
          continue;
        case Ignored =>
          r := RebuildFrom(t, s, j, []);
          return;
        case Mapped(x) =>
          r := RebuildFrom(t, s, j, x);
          return;
        case Disallowed =>
          assert !Keeps(t, s[j]) && MapChar(t, s[j]).None?;
          MapAllOk(t, s);
          assert MapValidated(t, s).Err? && MapValidated(t, s).error.InvalidCharacter?;
          return Err(InvalidCharacter);
        case Deviation =>
          assert false;
      }
    }
    return Ok(Borrowed(s));
  }

  /** `validate`: accepts every ASCII character and a non-ASCII one only when its verdict is `Valid`. */
  method Validate(t: seq<Row>, s: string) returns (r: Result<(), ToAsciiError>)
    requires WellFormed(t)
    ensures r.Ok? <==> forall j | 0 <= j < |s| :: IsAscii(s[j]) || Of(t, s[j]) == Some(Valid)
  {
    for j := 0 to |s|
      invariant forall k | 0 <= k < j :: IsAscii(s[k]) || Of(t, s[k]) == Some(Valid)
    {
      var c := s[j];
      if IsAscii(c) {
        continue;
      }
      match Resolve(t, c) {
        case Valid =>
          continue;
        case _ =>
          return Err(InvalidCharacter);
      }
    }
    return Ok(());
  }

  // ---------------------------------------------------------------------
  // Labels
  // ---------------------------------------------------------------------

  /**
   * `split_inclusive('.')` with each part cut at its dot by `split_once('.')`:
   * the labels of `s` in order, each with whether a dot followed it.
   */
  function Labels(s: string): (r: seq<(string, bool)>)
    decreases |s|
  {
    if s == [] then []
    else match FirstIndexOf(s, '.')
      case None => [(s, false)]
      case Some(i) => [(s[..i], true)] + Labels(s[i + 1..])
  }

  /** A label followed by its dot, if it had one. */
  function Piece(p: (string, bool)): string {
    p.0 + (if p.1 then "." else "")
  }

  /** The pieces written one after another. */
  function Concat(ps: seq<(string, bool)>): string
    decreases |ps|
  {
    if ps == [] then [] else Concat(ps[..|ps| - 1]) + Piece(ps[|ps| - 1])
  }

  /**
   * The shape of every split: no label holds a dot, every label but the last
   * was followed by one, and a last label without a dot is not empty.
   */
  predicate Proper(ps: seq<(string, bool)>) {
    (forall k | 0 <= k < |ps| :: '.' !in ps[k].0) &&
    (forall k | 0 <= k < |ps| - 1 :: ps[k].1) &&
    (|ps| > 0 && !ps[|ps| - 1].1 ==> ps[|ps| - 1].0 != [])
  }

  lemma {:induction false} ConcatCons(p: (string, bool), ps: seq<(string, bool)>)
    ensures Concat([p] + ps) == Piece(p) + Concat(ps)
    decreases |ps|
  {
    if ps == [] {
      assert [p] + ps == [p];
    } else {
      var init := ps[..|ps| - 1];
      assert ([p] + ps)[..|ps|] == [p] + init;
      ConcatCons(p, init);
      AppendAssoc(Piece(p), Concat(init), Piece(ps[|ps| - 1]));
    }
  }

  /** A dotted label without a dot of its own, in front of a split of that shape, keeps the shape. */
  lemma ProperCons(p: (string, bool), rest: seq<(string, bool)>)
    requires '.' !in p.0 && p.1 && Proper(rest)
    ensures Proper([p] + rest)
  {
    var ps := [p] + rest;
    assert forall k | 1 <= k < |ps| :: ps[k] == rest[k - 1];
  }

  /** The split after the first label of a split of that shape has that shape too, and a first label without a dot is the only one. */
  lemma ProperTail(p: (string, bool), rest: seq<(string, bool)>)
    requires Proper([p] + rest)
    ensures '.' !in p.0 && Proper(rest)
    ensures !p.1 ==> rest == [] && p.0 != []
  {
    var ps := [p] + rest;
    assert ps[0] == p;
    assert forall k | 0 <= k < |rest| :: rest[k] == ps[k + 1];
  }

  /** Writing the labels of `s` back, each with its dot, gives `s`. */
  lemma {:induction false} LabelsJoin(s: string)
    ensures Concat(Labels(s)) == s
    decreases |s|
  {
    if s != [] {
      match FirstIndexOf(s, '.')
      case None =>
        assert Concat([(s, false)]) == Concat([]) + Piece((s, false));
      case Some(i) =>
        LabelsJoin(s[i + 1..]);
        ConcatCons((s[..i], true), Labels(s[i + 1..]));
        SplitAround(s, i);
    }
  }

  /** Every split has the shape `Proper` describes. */
  lemma {:induction false} LabelsProper(s: string)
    ensures Proper(Labels(s))
    decreases |s|
  {
    if s != [] {
      match FirstIndexOf(s, '.')
      case None =>
      case Some(i) =>
        LabelsProper(s[i + 1..]);
        assert '.' !in s[..i] by {
          assert forall j | 0 <= j < i :: s[..i][j] == s[j];
        }
        ProperCons((s[..i], true), Labels(s[i + 1..]));
    }
  }

  /** A label without a dot, then a dot: `Labels` splits it off first. */
  lemma LabelsDotted(part: string, rest: string)
    requires '.' !in part
    ensures Labels(part + "." + rest) == [(part, true)] + Labels(rest)
  {
    var x := part + "." + rest;
    assert forall j | 0 <= j < |part| :: x[j] == part[j];
    FirstIndexOfIs(x, '.', |part|);
    assert x[..|part|] == part && x[|part| + 1..] == rest;
  }

  /** A split of the shape `Proper` describes is what `Labels` makes of the written pieces. */
  lemma {:induction false} LabelsOfConcat(ps: seq<(string, bool)>)
    requires Proper(ps)
    ensures Labels(Concat(ps)) == ps
    decreases |ps|
  {
    if ps != [] {
      var p := ps[0];
      var rest := ps[1..];
      assert ps == [p] + rest;
      ConcatCons(p, rest);
      ProperTail(p, rest);
      if p.1 {
        LabelsOfConcat(rest);
        LabelsDotted(p.0, Concat(rest));
      } else {
        assert Concat(ps) == p.0 + Concat([]) == p.0;
      }
    }
  }

  // ---------------------------------------------------------------------
  // `to_ascii`
  // ---------------------------------------------------------------------

  /** What `to_ascii` writes for one label: an ASCII label as it is, any other as `xn--` and its Punycode encoding. */
  function Ace(part: string): string {
    if AllAscii(part) then part else PREFIX + Punycode.Encoded(part)
  }

  /** The labels of a split, each replaced by what `to_ascii` writes for it. */
  function Converted(ps: seq<(string, bool)>): seq<(string, bool)> {
    seq(|ps|, k requires 0 <= k < |ps| => (Ace(ps[k].0), ps[k].1))
  }

  /** The string `to_ascii` splits: the mapped string, replaced by its NFC form unless the quick check says it is in NFC. */
  function Normalized(quickYes: string -> bool, nfc: string -> string, m: Cow): Cow {
    if quickYes(m.s) then m else Owned(nfc(m.s))
  }

  /** What `to_ascii` returns. */
  function ToAsciiOf(t: seq<Row>, quickYes: string -> bool, nfc: string -> string, s: string): Result<Cow, ToAsciiError>
    requires WellFormed(t)
  {
    match MapValidated(t, s)
    case Err(e) => Err(e)
    case Ok(m) =>
      var n := Normalized(quickYes, nfc, m);
      if AllAscii(n.s) then Ok(n) else Ok(Owned(Concat(Converted(Labels(n.s)))))
  }

  /** `to_ascii`. */
  method ToAscii(t: seq<Row>, quickYes: string -> bool, nfc: string -> string, s: string)
    returns (r: Result<Cow, ToAsciiError>)
    requires WellFormed(t)
    ensures r == ToAsciiOf(t, quickYes, nfc, s)
  {
    var m := MapValidate(t, s);
    if m.Err? {
      return Err(m.error);
    }
    var n := m.value;
    if !quickYes(n.s) {
      n := Owned(nfc(n.s));
    }
    if AllAscii(n.s) {
      return Ok(n);
    }
    var labels := Labels(n.s);
    var ret := "";
    for p := 0 to |labels|
      invariant ret == Concat(Converted(labels[..p]))
    {
      var part := labels[p].0;
      var dot := labels[p].1;
      ghost var before := ret;
      ghost var ace := Ace(part);
      if AllAscii(part) {
        ret := ret + part;
      } else {
        var encoded := Punycode.Encode(part);
        ret := ret + PREFIX + encoded;
        AppendAssoc(before, PREFIX, encoded);
      }
      assert ret == before + ace;
      if dot {
        ret := ret + ".";
        AppendAssoc(before, ace, ".");
      }
      assert ret == before + Piece((ace, dot));
      ConcatConvertedStep(labels, p);
    }
    assert labels[..|labels|] == labels;
    return Ok(Owned(ret));
  }

  /** Converting one more label appends what `to_ascii` writes for it. */
  lemma ConcatConvertedStep(ps: seq<(string, bool)>, p: nat)
    requires p < |ps|
    ensures Concat(Converted(ps[..p + 1])) == Concat(Converted(ps[..p])) + Piece((Ace(ps[p].0), ps[p].1))
  {
    var c := Converted(ps[..p + 1]);
    assert c[..p] == Converted(ps[..p]);
  }

  // ---------------------------------------------------------------------
  // What `to_ascii` promises
  // ---------------------------------------------------------------------

  /** What `to_ascii` writes for a label is ASCII: the label itself, or `xn--` and its Punycode encoding. */
  lemma AceAscii(part: string)
    ensures AllAscii(Ace(part))
  {
    if !AllAscii(part) {
      Punycode.EncodedAscii(part);
      AsciiAppend(PREFIX, Punycode.Encoded(part));
    }
  }

  /** What `to_ascii` writes for a label holds no dot, and is empty only for an empty label. */
  lemma AceLabel(part: string)
    requires '.' !in part
    ensures '.' !in Ace(part)
    ensures Ace(part) == [] <==> part == []
  {
    if !AllAscii(part) {
      var e := Punycode.Encoded(part);
      PunycodeFacts.EncodedChars(part);
      var r := PREFIX + e;
      forall k | 0 <= k < |r|
        ensures r[k] != '.'
      {
        if k >= |PREFIX| {
          assert r[k] == e[k - |PREFIX|];
        }
      }
    }
  }

  lemma {:induction false} ConcatAscii(ps: seq<(string, bool)>)
    requires forall k | 0 <= k < |ps| :: AllAscii(ps[k].0)
    ensures AllAscii(Concat(ps))
    decreases |ps|
  {
    if ps != [] {
      var p := ps[|ps| - 1];
      ConcatAscii(ps[..|ps| - 1]);
      AsciiAppend(p.0, if p.1 then "." else "");
      AsciiAppend(Concat(ps[..|ps| - 1]), Piece(p));
    }
  }

  /** No label `to_ascii` writes holds a dot when no label it was given did. */
  lemma AceLabels(ps: seq<(string, bool)>)
    requires forall k | 0 <= k < |ps| :: '.' !in ps[k].0
    ensures forall k | 0 <= k < |ps| :: '.' !in Ace(ps[k].0)
  {
    forall k | 0 <= k < |ps|
      ensures '.' !in Ace(ps[k].0)
    {
      AceLabel(ps[k].0);
    }
  }

  /** Converting the labels keeps the shape of the split. */
  lemma ConvertedProper(ps: seq<(string, bool)>)
    requires Proper(ps)
    ensures Proper(Converted(ps))
  {
    var c := Converted(ps);
    AceLabels(ps);
    assert forall k | 0 <= k < |c| :: c[k] == (Ace(ps[k].0), ps[k].1);
    if |ps| > 0 {
      AceLabel(ps[|ps| - 1].0);
    }
  }

  /** Every string `to_ascii` returns is ASCII. */
  lemma ToAsciiIsAscii(t: seq<Row>, quickYes: string -> bool, nfc: string -> string, s: string)
    requires WellFormed(t)
    requires ToAsciiOf(t, quickYes, nfc, s).Ok?
    ensures AllAscii(ToAsciiOf(t, quickYes, nfc, s).value.s)
  {
    var n := Normalized(quickYes, nfc, MapValidated(t, s).value);
    if !AllAscii(n.s) {
      var ps := Converted(Labels(n.s));
      forall k | 0 <= k < |ps|
        ensures AllAscii(ps[k].0)
      {
        AceAscii(Labels(n.s)[k].0);
      }
      ConcatAscii(ps);
    }
  }

  /**
   * `to_ascii` keeps the dot structure: the result splits into as many labels
   * as the normalised string, in the same order and with the same dots, each
   * label ASCII as it was or `xn--` and its Punycode encoding.
   */
  lemma ToAsciiLabels(t: seq<Row>, quickYes: string -> bool, nfc: string -> string, s: string)
    requires WellFormed(t)
    requires MapValidated(t, s).Ok?
    ensures var n := Normalized(quickYes, nfc, MapValidated(t, s).value).s;
            var r := ToAsciiOf(t, quickYes, nfc, s);
            r.Ok? && Labels(r.value.s) == Converted(Labels(n))
  {
    var n := Normalized(quickYes, nfc, MapValidated(t, s).value).s;
    LabelsProper(n);
    if AllAscii(n) {
      LabelsAscii(n);
      assert Converted(Labels(n)) == Labels(n);
    } else {
      ConvertedProper(Labels(n));
      LabelsOfConcat(Converted(Labels(n)));
    }
  }

  /** The labels of an ASCII string are ASCII. */
  lemma {:induction false} LabelsAscii(s: string)
    requires AllAscii(s)
    ensures forall p | p in Labels(s) :: AllAscii(p.0)
    decreases |s|
  {
    if s != [] {
      match FirstIndexOf(s, '.')
      case None =>
        assert Labels(s) == [(s, false)];
      case Some(i) =>
        AsciiAround(s, i);
        LabelsAscii(s[i + 1..]);
        assert Labels(s) == [(s[..i], true)] + Labels(s[i + 1..]);
    }
  }

  /** An ASCII string maps to its lower-case form. */
  lemma {:induction false} MapAllAscii(t: seq<Row>, s: string)
    requires WellFormed(t) && AllAscii(s)
    ensures MapAll(t, s) == Ok(LowerAll(s))
    decreases |s|
  {
    if s != [] {
      var p := s[..|s| - 1];
      assert forall j | 0 <= j < |p| :: p[j] == s[j];
      MapAllAscii(t, p);
      assert LowerAll(p) + [ToAsciiLower(s[|s| - 1])] == LowerAll(s);
    }
  }

  /**
   * An ASCII domain comes back lower-cased and otherwise unchanged, given
   * that normalisation leaves its lower-case form alone.
   */
  lemma ToAsciiOfAscii(t: seq<Row>, quickYes: string -> bool, nfc: string -> string, s: string)
    requires WellFormed(t) && AllAscii(s)
    requires quickYes(LowerAll(s)) || nfc(LowerAll(s)) == LowerAll(s)
    ensures ToAsciiOf(t, quickYes, nfc, s).Ok? && ToAsciiOf(t, quickYes, nfc, s).value.s == LowerAll(s)
  {
    MapAllAscii(t, s);
    MapValidatedIs(t, s);
    var low := LowerAll(s);
    assert AllAscii(low) by {
      forall j | 0 <= j < |low|
        ensures IsAscii(low[j])
      {
        assert low[j] == ToAsciiLower(s[j]);
      }
    }
  }

  /** The empty domain converts to the empty string, given that normalisation leaves it empty. */
  lemma ToAsciiOfEmpty(t: seq<Row>, quickYes: string -> bool, nfc: string -> string)
    requires WellFormed(t) && nfc([]) == []
    ensures ToAsciiOf(t, quickYes, nfc, []).Ok? && ToAsciiOf(t, quickYes, nfc, []).value.s == []
  {
  }

  /** A disallowed code point anywhere in the domain makes `to_ascii` fail with `InvalidCharacter`. */
  lemma ToAsciiOfDisallowed(t: seq<Row>, quickYes: string -> bool, nfc: string -> string, s: string, j: nat)
    requires WellFormed(t)
    requires j < |s| && !IsAscii(s[j]) && Of(t, s[j]) == Some(Disallowed)
    ensures ToAsciiOf(t, quickYes, nfc, s) == Err(InvalidCharacter)
  {
    MapValidatedIs(t, s);
    assert ToAsciiOf(t, quickYes, nfc, s).Err? && ToAsciiOf(t, quickYes, nfc, s).error.InvalidCharacter?;
  }

  /** The vector `"\u{10FFF}"`: with that code point's row disallowed, `to_ascii` fails. */
  lemma ToAsciiOfInvalidVector(t: seq<Row>, quickYes: string -> bool, nfc: string -> string)
    requires WellFormed(t) && Of(t, '\U{10FFF}') == Some(Disallowed)
    ensures ToAsciiOf(t, quickYes, nfc, "\U{10FFF}") == Err(InvalidCharacter)
  {
    ToAsciiOfDisallowed(t, quickYes, nfc, "\U{10FFF}", 0);
  }
}
