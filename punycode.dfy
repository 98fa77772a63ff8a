/**
 * The Punycode codec of RFC 3492: the parameters of section 5, bias
 * adaptation (section 6.1), decoding (section 6.2) and encoding (section 6.3).
 *
 * Each procedure of `edna` is a method with its loops; each method is
 * proved equal to a specification function that follows the same steps
 * (`Encoded`, `Decoded`, `AdaptBias`), and the properties are proved about
 * those functions.
 */
module Punycode {
  import opened Wrappers
  import opened Text

  const BASE: nat := 36
  const T_MIN: nat := 1
  const T_MAX: nat := 26
  const SKEW: nat := 38
  const DAMP: nat := 700
  const INITIAL_BIAS: nat := 72
  const INITIAL_N: nat := 128
  const DELIMITER: char := '-'

  datatype DecodeError = NonAscii | InvalidSequence | Overflow | InvalidCodePoint

  /** The characters `encode` uses for digits: `a`-`z` and `0`-`9`. */
  predicate IsDigitChar(c: char) {
    IsAsciiLower(c) || IsAsciiDigit(c)
  }

  predicate AllDigitChars(s: string) {
    forall j | 0 <= j < |s| :: IsDigitChar(s[j])
  }

  // ---------------------------------------------------------------------
  // Digits and thresholds
  // ---------------------------------------------------------------------

  /** Digit values 0-25 are `a`-`z`, 26-35 are `0`-`9`. */
  function EncodeDigit(d: nat): (c: char)
    requires d < BASE
    ensures IsDigitChar(c)
    ensures DecodeDigit(c) == Some(d)
  {
    if d < 26 then (d + 'a' as nat) as char else (d - 26 + '0' as nat) as char
  }

  /** `0`-`9` are 26-35; `A`-`Z` and `a`-`z` are 0-25; nothing else is a digit. */
  function DecodeDigit(c: char): (r: Option<nat>)
    ensures r.Some? <==> IsAsciiAlphanumeric(c)
    ensures r.Some? ==> r.value < BASE
  {
    if IsAsciiDigit(c) then Some(c as nat - '0' as nat + 26)
    else if IsAsciiUpper(c) then Some(c as nat - 'A' as nat)
    else if IsAsciiLower(c) then Some(c as nat - 'a' as nat)
    else None
  }

  /** The threshold of the digit at position `k` (a multiple of BASE), clamped to [T_MIN, T_MAX]. */
  function Threshold(k: nat, bias: nat): (t: nat)
    ensures T_MIN <= t <= T_MAX
    ensures bias < k < bias + T_MAX ==> t == k - bias
  {
    if k <= bias then T_MIN else if k >= bias + T_MAX then T_MAX else k - bias
  }

  // ---------------------------------------------------------------------
  // Bias adaptation (RFC 3492 section 6.1)
  // ---------------------------------------------------------------------

  /** The delta after the first two steps of `adapt`: scaled down, then increased by delta / numPoints. */
  function Damped(delta: nat, numPoints: nat, firstTime: bool): nat
    requires numPoints >= 1
  {
    var d := if firstTime then delta / DAMP else delta / 2;
    d + Quot(d, numPoints)
  }

  /**
   * The loop of `adapt` and its last term, from a delta already damped:
   * while `delta` exceeds 455 it is divided by BASE - T_MIN and `k` grows by
   * BASE.
   */
  function AdaptFrom(delta: nat, k: nat): nat
    decreases delta
  {
    if delta > ((BASE - T_MIN) * T_MAX) / 2 then AdaptFrom(delta / (BASE - T_MIN), k + BASE)
    else k + Last(delta)
  }

  /** The last term of `adapt`: (BASE - T_MIN + 1) * delta / (delta + SKEW). */
  function Last(delta: nat): nat
  {
    Quot((BASE - T_MIN + 1) * delta, delta + SKEW)
  }

  /** The new bias `adapt` returns. */
  function AdaptBias(delta: nat, numPoints: nat, firstTime: bool): nat
    requires numPoints >= 1
  {
    AdaptFrom(Damped(delta, numPoints, firstTime), 0)
  }

  /** The number of divisions the loop of `adapt` makes, and the delta that remains. */
  function Reduce(delta: nat): (r: (nat, nat))
    ensures r.1 <= ((BASE - T_MIN) * T_MAX) / 2
    ensures r.1 <= delta
    ensures r.0 == 0 <==> delta <= ((BASE - T_MIN) * T_MAX) / 2
    decreases delta
  {
    if delta > ((BASE - T_MIN) * T_MAX) / 2 then
      var (n, d) := Reduce(delta / (BASE - T_MIN));
      (n + 1, d)
    else
      (0, delta)
  }

  /** The last term is below BASE, so it is the remainder of the bias by BASE. */
  lemma LastBelow(delta: nat)
    ensures Last(delta) < BASE
  {
    QuotBelow((BASE - T_MIN + 1) * delta, delta + SKEW, BASE);
  }

  /** The loop of `adapt` adds BASE once per division and ends with the last term of the reduced delta. */
  lemma {:induction false} AdaptFromReduce(delta: nat, k: nat)
    ensures AdaptFrom(delta, k) == k + BASE * Reduce(delta).0 + Last(Reduce(delta).1)
    decreases delta
  {
    if delta > ((BASE - T_MIN) * T_MAX) / 2 {
      AdaptFromReduce(delta / (BASE - T_MIN), k + BASE);
    }
  }

  /**
   * `adapt`: the result is BASE times the number of loop iterations plus a
   * last term below BASE, computed from a reduced delta of at most 455.
   */
  lemma AdaptBiasShape(delta: nat, numPoints: nat, firstTime: bool)
    requires numPoints >= 1
    ensures var (n, d) := Reduce(Damped(delta, numPoints, firstTime));
            d <= 455 && Last(d) < BASE &&
            AdaptBias(delta, numPoints, firstTime) == BASE * n + Last(d)
  {
    var (n, d) := Reduce(Damped(delta, numPoints, firstTime));
    AdaptFromReduce(Damped(delta, numPoints, firstTime), 0);
    LastBelow(d);
  }

  method Adapt(delta: nat, numPoints: nat, firstTime: bool) returns (bias: nat)
    requires numPoints >= 1
    ensures bias == AdaptBias(delta, numPoints, firstTime)
  {
    var d: nat := if firstTime then delta / DAMP else delta / 2;
    QuotRemIs(d, numPoints);
    d := d + d / numPoints;
    assert d == Damped(delta, numPoints, firstTime);
    var k: nat := 0;
    while d > ((BASE - T_MIN) * T_MAX) / 2
      invariant AdaptFrom(d, k) == AdaptBias(delta, numPoints, firstTime)
    {
      d := d / (BASE - T_MIN);
      k := k + BASE;
    }
    QuotRemIs((BASE - T_MIN + 1) * d, d + SKEW);
    bias := k + ((BASE - T_MIN + 1) * d) / (d + SKEW);
  }

  // ---------------------------------------------------------------------
  // Specification of `encode`
  // ---------------------------------------------------------------------

  /** The code points of `s` below `v`, in order; `Below(s, INITIAL_N)` are the basic ones. */
  function Below(s: string, v: nat): (r: string)
    ensures |r| <= |s|
  {
    if s == [] then [] else (if s[0] as nat < v then [s[0]] else []) + Below(s[1..], v)
  }

  /** The smallest code point of `s` that is at least `v` (the `min` in `encode`). */
  function MinAtLeast(s: string, v: nat): (m: nat)
    requires |Below(s, v)| < |s|
    ensures v <= m
    ensures exists j | 0 <= j < |s| :: s[j] as nat == m
    ensures forall j | 0 <= j < |s| && v <= s[j] as nat :: m <= s[j] as nat
  {
    if s[0] as nat < v then
      var m := MinAtLeast(s[1..], v);
      var j :| 0 <= j < |s[1..]| && s[1..][j] as nat == m;
      assert s[j + 1] as nat == m;
      m
    else if |Below(s[1..], v)| < |s[1..]| then
      var m := MinAtLeast(s[1..], v);
      var j :| 0 <= j < |s[1..]| && s[1..][j] as nat == m;
      assert s[j + 1] as nat == m;
      if s[0] as nat <= m then s[0] as nat else m
    else
      assert Below(s, v) == Below(s[1..], v);
      BelowFull(s[1..], v);
      BelowBounded(s[1..], v);
      s[0] as nat
  }

  /** The generalized variable-length integer for `q`, its thresholds counted from position `k`. */
  function EncodeInt(q: nat, k: nat, bias: nat): (r: string)
    ensures |r| >= 1
    decreases q
  {
    var t := Threshold(k, bias);
    if q < t then [EncodeDigit(q)]
    else
      [EncodeDigit(t + Rem(q - t, BASE - t))] + EncodeInt(Quot(q - t, BASE - t), k + BASE, bias)
  }

  /** The first digit `encode` writes for `q` at or above its threshold, and the digits of the quotient after it. */
  lemma EncodeIntCons(q: nat, k: nat, bias: nat)
    requires Threshold(k, bias) <= q
    ensures var t := Threshold(k, bias);
            EncodeInt(q, k, bias)
            == [EncodeDigit(t + Rem(q - t, BASE - t))] + EncodeInt(Quot(q - t, BASE - t), k + BASE, bias)
  {
  }

  /** The variables of `encode`'s loops. */
  datatype Encoder = Encoder(cp: nat, delta: nat, bias: nat, processed: nat)

  /**
   * The inner `for` loop of `encode` from position `j` on, at code point
   * `st.cp`: the digits it emits and the variables afterwards.
   */
  function Scan(s: string, basicLen: nat, j: nat, st: Encoder): (r: (string, Encoder))
    requires j <= |s|
    decreases |s| - j
  {
    if j == |s| then ([], st)
    else
      if s[j] as nat < st.cp then
        Scan(s, basicLen, j + 1, st.(delta := st.delta + 1))
      else if s[j] as nat == st.cp then
        var digits := EncodeInt(st.delta, BASE, st.bias);
        var next := Encoder(st.cp, 0, AdaptBias(st.delta, st.processed + 1, st.processed == basicLen), st.processed + 1);
        var rest := Scan(s, basicLen, j + 1, next);
        (digits + rest.0, rest.1)
      else
        Scan(s, basicLen, j + 1, st)
  }

  /** The `for` loop keeps `cp` and processes exactly the occurrences of `cp` it passes. */
  lemma {:induction false} ScanCount(s: string, basicLen: nat, j: nat, st: Encoder)
    requires j <= |s|
    ensures Scan(s, basicLen, j, st).1.cp == st.cp
    ensures Scan(s, basicLen, j, st).1.processed == st.processed + |Below(s[j..], st.cp + 1)| - |Below(s[j..], st.cp)|
    decreases |s| - j
  {
    if j < |s| {
      assert s[j..][0] == s[j] && s[j..][1..] == s[j + 1..];
      if s[j] as nat < st.cp {
        ScanCount(s, basicLen, j + 1, st.(delta := st.delta + 1));
      } else if s[j] as nat == st.cp {
        ScanCount(s, basicLen, j + 1, Encoder(st.cp, 0, AdaptBias(st.delta, st.processed + 1, st.processed == basicLen), st.processed + 1));
      } else {
        ScanCount(s, basicLen, j + 1, st);
      }
    }
  }

  /** An integer is written in digit characters only. */
  lemma {:induction false} EncodeIntDigits(q: nat, k: nat, bias: nat)
    ensures AllDigitChars(EncodeInt(q, k, bias))
    decreases q
  {
    var t := Threshold(k, bias);
    if q >= t {
      EncodeIntDigits(Quot(q - t, BASE - t), k + BASE, bias);
      DigitsAppend([EncodeDigit(t + Rem(q - t, BASE - t))], EncodeInt(Quot(q - t, BASE - t), k + BASE, bias));
    }
  }

  /** The `for` loop emits only digit characters. */
  lemma {:induction false} ScanDigits(s: string, basicLen: nat, j: nat, st: Encoder)
    requires j <= |s|
    ensures AllDigitChars(Scan(s, basicLen, j, st).0)
    decreases |s| - j
  {
    if j < |s| {
      if s[j] as nat < st.cp {
        ScanDigits(s, basicLen, j + 1, st.(delta := st.delta + 1));
      } else if s[j] as nat == st.cp {
        var next := Encoder(st.cp, 0, AdaptBias(st.delta, st.processed + 1, st.processed == basicLen), st.processed + 1);
        ScanDigits(s, basicLen, j + 1, next);
        EncodeIntDigits(st.delta, BASE, st.bias);
        DigitsAppend(EncodeInt(st.delta, BASE, st.bias), Scan(s, basicLen, j + 1, next).0);
      } else {
        ScanDigits(s, basicLen, j + 1, st);
      }
    }
  }

  lemma DigitsAppend(a: string, b: string)
    requires AllDigitChars(a) && AllDigitChars(b)
    ensures AllDigitChars(a + b)
  {
    assert forall k | 0 <= k < |a + b| :: (a + b)[k] == if k < |a| then a[k] else b[k - |a|];
  }

  /** Moving `cp` up to `m` adds (m - cp) * (processed + 1) to delta. */
  function Jump(st: Encoder, m: nat): (r: Encoder)
    requires st.cp <= m
    ensures r.cp == m && r.bias == st.bias && r.processed == st.processed
  {
    Encoder(m, st.delta + Times(m - st.cp, st.processed + 1), st.bias, st.processed)
  }

  /**
   * One iteration of the outer `while` loop of `encode`, from a state whose
   * `processed` counts the code points below `cp`: the digits it emits and
   * the next state, which has processed more code points.
   */
  function Round(s: string, basicLen: nat, st: Encoder): (r: (string, Encoder))
    requires st.processed == |Below(s, st.cp)| < |s|
    ensures st.processed < r.1.processed == |Below(s, r.1.cp)| <= |s|
  {
    var m := MinAtLeast(s, st.cp);
    var scan := Scan(s, basicLen, 0, Jump(st, m));
    ScanCount(s, basicLen, 0, Jump(st, m));
    assert s[0..] == s;
    RoundProgress(s, st.cp, m, st.processed, scan.1.processed);
    (scan.0, Encoder(m + 1, scan.1.delta + 1, scan.1.bias, scan.1.processed))
  }

  /** The outer `while` loop of `encode`: the digits it emits from state `st` on. */
  function Rounds(s: string, basicLen: nat, st: Encoder): (r: string)
    requires st.processed == |Below(s, st.cp)|
    decreases |s| - st.processed
  {
    if st.processed >= |s| then []
    else
      var round := Round(s, basicLen, st);
      round.0 + Rounds(s, basicLen, round.1)
  }

  /** The outer loop emits only digit characters. */
  lemma {:induction false} RoundsDigits(s: string, basicLen: nat, st: Encoder)
    requires st.processed == |Below(s, st.cp)|
    ensures AllDigitChars(Rounds(s, basicLen, st))
    decreases |s| - st.processed
  {
    if st.processed < |s| {
      var round := Round(s, basicLen, st);
      var m := MinAtLeast(s, st.cp);
      ScanDigits(s, basicLen, 0, Jump(st, m));
      RoundsDigits(s, basicLen, round.1);
      DigitsAppend(round.0, Rounds(s, basicLen, round.1));
    }
  }

  /** A round at the smallest code point `m` not below `v` processes every code point below `m + 1`. */
  lemma RoundProgress(s: string, v: nat, m: nat, before: nat, after: nat)
    requires before == |Below(s, v)| < |s|
    requires m == MinAtLeast(s, v)
    requires after == before + |Below(s, m + 1)| - |Below(s, m)|
    ensures before < after == |Below(s, m + 1)| <= |s|
  {
    assert s[0..] == s;
    BelowSkip(s, v, m);
    BelowStep(s, m);
  }

  /** What `encode` returns: the basic code points, a delimiter if there are any, then the digits. */
  function Encoded(s: string): (r: string)
  {
    var basic := Below(s, INITIAL_N);
    basic + (if |basic| > 0 then [DELIMITER] else []) + Rounds(s, |basic|, Encoder(INITIAL_N, 0, INITIAL_BIAS, |basic|))
  }

  /** `encode` writes ASCII only: the basic code points, perhaps a delimiter, and digits. */
  lemma EncodedAscii(s: string)
    ensures AllAscii(Encoded(s))
  {
    var basic := Below(s, INITIAL_N);
    var digits := Rounds(s, |basic|, Encoder(INITIAL_N, 0, INITIAL_BIAS, |basic|));
    var delimiter := if |basic| > 0 then [DELIMITER] else [];
    BelowBounded(s, INITIAL_N);
    assert AllAscii(basic);
    RoundsDigits(s, |basic|, Encoder(INITIAL_N, 0, INITIAL_BIAS, |basic|));
    assert AllAscii(digits);
    AsciiAppend(basic, delimiter);
    AsciiAppend(basic + delimiter, digits);
  }

  // ---------------------------------------------------------------------
  // Specification of `decode`
  // ---------------------------------------------------------------------

  /** The variables of `decode`'s loop. */
  datatype Decoder = Decoder(output: string, cp: nat, i: nat, bias: nat)

  /** How one digit of a generalized variable-length integer ends: the last digit, or more to come at a new weight. */
  datatype Digit = Final(i: nat) | Continue(i: nat, weight: nat)

  /**
   * One iteration of `decode`'s inner loop: the digit `c` at position `k`
   * and weight `weight` added to `i`, with each `u32` check in the order `edna` makes it.
   */
  function ReadDigit(c: char, i: nat, weight: nat, k: nat, bias: nat): (r: Result<Digit, DecodeError>)
    ensures r.Ok? ==> i <= r.value.i <= U32_MAX
    ensures r == Err(NonAscii) <==> !IsAsciiAlphanumeric(c)
  {
    match DecodeDigit(c)
    case None => Err(NonAscii)
    case Some(digit) =>
      var product := Times(digit, weight);
      if product > U32_MAX then Err(Overflow)
      else if i + product > U32_MAX then Err(Overflow)
      else
        var t := Threshold(k, bias);
        if digit < t then Ok(Final(i + product))
        else if Times(weight, BASE - t) > U32_MAX then Err(Overflow)
        else Ok(Continue(i + product, Times(weight, BASE - t)))
  }

  /**
   * The inner loop of `decode`: reads one generalized variable-length integer
   * from `digits`, adding to `i`, and returns the new `i` and the digits left.
   */
  function ReadInt(digits: string, i: nat, weight: nat, k: nat, bias: nat): (r: Result<(nat, string), DecodeError>)
    requires |digits| >= 1
    ensures r.Ok? ==> i <= r.value.0 <= U32_MAX && |r.value.1| < |digits|
    decreases |digits|
  {
    match ReadDigit(digits[0], i, weight, k, bias)
    case Err(e) => Err(e)
    case Ok(Final(i')) => Ok((i', digits[1..]))
    case Ok(Continue(i', weight')) =>
      if |digits| == 1 then Err(InvalidSequence)
      else ReadInt(digits[1..], i', weight', k + BASE, bias)
  }

  /**
   * The rest of an iteration of `decode`'s outer loop, once the integer has
   * raised `i` from `oldI` to `i`: the new bias, then the code point and the
   * position it is inserted at in `output`.
   */
  function Insert(output: string, cp: nat, oldI: nat, i: nat): (r: Result<Decoder, DecodeError>)
    requires oldI <= i
    ensures r.Ok? ==> |r.value.output| == |output| + 1 && 1 <= r.value.i <= |r.value.output|
    ensures r.Ok? ==> cp <= r.value.cp <= MAX_SCALAR && IsScalar(r.value.cp)
  {
    var len := |output| + 1;
    var bias := AdaptBias(i - oldI, len, oldI == 0);
    if cp + Quot(i, len) > U32_MAX then Err(Overflow)
    else
      var code := cp + Quot(i, len);
      var pos := Rem(i, len);
      match FromU32(code)
      case None => Err(InvalidCodePoint)
      case Some(c) => Ok(Decoder(output[..pos] + [c] + output[pos..], code, pos + 1, bias))
  }

  /** The outer loop of `decode`: the result of decoding the remaining `digits` from state `d`. */
  function DecodeFrom(digits: string, d: Decoder): (r: Result<string, DecodeError>)
    decreases |digits|
  {
    if digits == [] then Ok(d.output)
    else
      match ReadInt(digits, d.i, 1, BASE, d.bias)
      case Err(e) => Err(e)
      case Ok((i, rest)) =>
        match Insert(d.output, d.cp, d.i, i)
        case Err(e) => Err(e)
        case Ok(next) => DecodeFrom(rest, next)
  }

  /** The state `decode` starts from, after splitting at the last delimiter. */
  function Start(input: string): (r: (string, Decoder))
    ensures DELIMITER !in r.0
  {
    match LastIndexOf(input, DELIMITER)
    case Some(d) => (input[d + 1..], Decoder(input[..d], INITIAL_N, 0, INITIAL_BIAS))
    case None => (input, Decoder([], INITIAL_N, 0, INITIAL_BIAS))
  }

  /** What `decode` returns. */
  function Decoded(input: string): Result<string, DecodeError>
  {
    DecodeFrom(Start(input).0, Start(input).1)
  }

  // ---------------------------------------------------------------------
  // The procedures
  // ---------------------------------------------------------------------

  /**
   * The innermost loop of `encode`: the digits of the generalized
   * variable-length integer for `delta`, least significant first.
   */
  method EncodeInteger(delta: nat, bias: nat) returns (digits: string)
    ensures digits == EncodeInt(delta, BASE, bias)
  {
    digits := [];
    var q: nat := delta;
    var k: nat := BASE;
    var t := Threshold(k, bias);
    while t <= q
      invariant t == Threshold(k, bias)
      invariant digits + EncodeInt(q, k, bias) == EncodeInt(delta, BASE, bias)
      decreases q
    {
      var digit := t + (q - t) % (BASE - t);
      var rest := (q - t) / (BASE - t);
      EncodeIntStep(digits, q, k, bias, digit, rest);
      digits := digits + [EncodeDigit(digit)];
      q := rest;
      k := k + BASE;
      t := Threshold(k, bias);
    }
    EncodeIntLast(q, k, bias);
    digits := digits + [EncodeDigit(q)];
  }

  /** Below its threshold, `q` is written as a single digit. */
  lemma EncodeIntLast(q: nat, k: nat, bias: nat)
    requires q < Threshold(k, bias)
    ensures q < BASE && EncodeInt(q, k, bias) == [EncodeDigit(q)]
  {
  }

  /** One iteration of `EncodeInteger`'s loop appends the digit `EncodeInt` starts with. */
  lemma EncodeIntStep(digits: string, q: nat, k: nat, bias: nat, digit: int, rest: int)
    requires Threshold(k, bias) <= q
    requires digit == Threshold(k, bias) + (q - Threshold(k, bias)) % (BASE - Threshold(k, bias))
    requires rest == (q - Threshold(k, bias)) / (BASE - Threshold(k, bias))
    ensures 0 <= rest < q && 0 <= digit < BASE
    ensures (digits + [EncodeDigit(digit)]) + EncodeInt(rest, k + BASE, bias) == digits + EncodeInt(q, k, bias)
  {
    var t := Threshold(k, bias);
    QuotRemIs(q - t, BASE - t);
    EncodeIntCons(q, k, bias);
    AppendAssoc(digits, [EncodeDigit(digit)], EncodeInt(rest, k + BASE, bias));
  }

  /**
   * One iteration of `encode`'s outer loop: moves `cp` to the smallest code
   * point not yet processed, then runs the `for` loop over the input,
   * returning the digits it pushes and the variables afterwards.
   */
  method EncodeRound(input: string, basicLen: nat, cp: nat, delta: nat, bias: nat, processed: nat)
    returns (digits: string, cp': nat, delta': nat, bias': nat, processed': nat)
    requires processed == |Below(input, cp)| < |input|
    ensures (digits, Encoder(cp', delta', bias', processed')) == Round(input, basicLen, Encoder(cp, delta, bias, processed))
  {
    var minCp := MinAtLeast(input, cp);
    ghost var first := Jump(Encoder(cp, delta, bias, processed), minCp);
    ghost var total := Scan(input, basicLen, 0, first);
    TimesIsMul(minCp - cp, processed + 1);
    digits, cp', delta', bias', processed' := [], minCp, delta + (minCp - cp) * (processed + 1), bias, processed;
    ghost var st := Encoder(cp', delta', bias', processed');
    assert st == first;
    for j := 0 to |input|
      invariant st == Encoder(cp', delta', bias', processed') && cp' == minCp
      invariant Scan(input, basicLen, j, st).1 == total.1
      invariant digits + Scan(input, basicLen, j, st).0 == total.0
    {
      var pushed;
      pushed, delta', bias', processed' := EncodeChar(input, basicLen, j, cp', delta', bias', processed');
      ghost var next := Encoder(cp', delta', bias', processed');
      AppendAssoc(digits, pushed, Scan(input, basicLen, j + 1, next).0);
      digits := digits + pushed;
      st := next;
    }
    assert digits + [] == digits;
    delta' := delta' + 1;
    cp' := cp' + 1;
  }

  /**
   * The body of `encode`'s `for` loop at the code point `input[j]`: counts
   * a smaller one in `delta`, writes `delta` for one equal to `cp` and
   * adapts the bias, and passes over a larger one.
   */
  method EncodeChar(input: string, basicLen: nat, j: nat, cp: nat, delta: nat, bias: nat, processed: nat)
    returns (pushed: string, delta': nat, bias': nat, processed': nat)
    requires j < |input|
    ensures var st := Encoder(cp, delta, bias, processed);
            var next := Encoder(cp, delta', bias', processed');
            Scan(input, basicLen, j, st).0 == pushed + Scan(input, basicLen, j + 1, next).0 &&
            Scan(input, basicLen, j, st).1 == Scan(input, basicLen, j + 1, next).1
  {
    var c := input[j] as nat;
    pushed, delta', bias', processed' := [], delta, bias, processed;
    if c < cp {
      delta' := delta + 1;
    } else if c == cp {
      pushed := EncodeInteger(delta, bias);
      bias' := Adapt(delta, processed + 1, processed == basicLen);
      delta' := 0;
      processed' := processed + 1;
    }
  }

  /** `encode`. Arithmetic is unbounded: the `u32` wrap-around of `edna` is not modelled. */
  method Encode(input: string) returns (output: string)
    ensures output == Encoded(input)
  {
    output := Below(input, INITIAL_N);
    var basicLen := |output|;
    if basicLen > 0 {
      output := output + [DELIMITER];
    }
    var cp: nat, delta: nat, bias: nat, processed: nat := INITIAL_N, 0, INITIAL_BIAS, basicLen;
    while processed < |input|
      invariant processed == |Below(input, cp)|
      invariant output + Rounds(input, basicLen, Encoder(cp, delta, bias, processed)) == Encoded(input)
      decreases |input| - processed
    {
      ghost var st := Encoder(cp, delta, bias, processed);
      var digits;
      digits, cp, delta, bias, processed := EncodeRound(input, basicLen, cp, delta, bias, processed);
      ghost var rest := Rounds(input, basicLen, Encoder(cp, delta, bias, processed));
      assert Rounds(input, basicLen, st) == digits + rest;
      AppendAssoc(output, digits, rest);
      output := output + digits;
    }
    assert output + [] == output;
  }

  /**
   * The body of `decode`'s inner `for` loop: decodes the digit `byte`, adds it
   * at weight `weight` to `i`, and stops below the threshold of position `k`
   * or scales the weight, each `u32` operation checked.
   */
  method DecodeStep(byte: char, i: nat, weight: nat, k: nat, bias: nat) returns (r: Result<Digit, DecodeError>)
    ensures r == ReadDigit(byte, i, weight, k, bias)
  {
    var digit := DecodeDigit(byte);
    if digit.None? {
      return Err(NonAscii);
    }
    TimesIsMul(digit.value, weight);
    var product: nat := digit.value * weight;
    if product > U32_MAX {
      return Err(Overflow);
    }
    if i + product > U32_MAX {
      return Err(Overflow);
    }
    var t := Threshold(k, bias);
    if digit.value < t {
      return Ok(Final(i + product));
    }
    TimesIsMul(weight, BASE - t);
    if weight * (BASE - t) > U32_MAX {
      return Err(Overflow);
    }
    return Ok(Continue(i + product, weight * (BASE - t)));
  }

  /**
   * The inner `for` loop of `decode`: reads the integer whose first digit is
   * `encoded[start]`, adding to `i`; returns the new `i` and the position after
   * its last digit, or the error of the first check that fails.
   */
  method ReadInteger(encoded: string, start: nat, i: nat, bias: nat) returns (r: Result<(nat, nat), DecodeError>)
    requires start < |encoded|
    ensures r.Ok? ==> start < r.value.1 <= |encoded| && ReadInt(encoded[start..], i, 1, BASE, bias) == Ok((r.value.0, encoded[r.value.1..]))
    ensures r.Err? ==> ReadInt(encoded[start..], i, 1, BASE, bias) == Err(r.error)
  {
    var acc: nat := i;
    var pos: nat := start;
    var weight: nat := 1;
    var k: nat := BASE;
    var byte := encoded[pos];
    pos := pos + 1;
    while true
      invariant start < pos <= |encoded| && byte == encoded[pos - 1]
      invariant ReadInt(encoded[pos - 1..], acc, weight, k, bias) == ReadInt(encoded[start..], i, 1, BASE, bias)
      decreases |encoded| - pos
    {
      assert encoded[pos - 1..][1..] == encoded[pos..];
      var step := DecodeStep(byte, acc, weight, k, bias);
      match step {
        case Err(e) =>
          return Err(e);
        case Ok(Final(sum)) =>
          return Ok((sum, pos));
        case Ok(Continue(sum, scaled)) =>
          if pos == |encoded| {
            return Err(InvalidSequence);
          }
          acc, weight := sum, scaled;
          byte := encoded[pos];
          pos := pos + 1;
          k := k + BASE;
      }
    }
  }

  /**
   * The end of an iteration of `decode`'s outer loop: adapts the bias, adds
   * `i / len` to the code point and inserts it at `i % len`, where `len` is
   * one more than the length of the output so far.
   */
  method InsertCodePoint(output: string, cp: nat, oldI: nat, i: nat) returns (r: Result<Decoder, DecodeError>)
    requires oldI <= i
    ensures r == Insert(output, cp, oldI, i)
  {
    var bias := Adapt(i - oldI, |output| + 1, oldI == 0);
    var len := |output| + 1;
    QuotRemIs(i, len);
    if cp + i / len > U32_MAX {
      return Err(Overflow);
    }
    var code := cp + i / len;
    var pos := i % len;
    var c := FromU32(code);
    if c.None? {
      return Err(InvalidCodePoint);
    }
    return Ok(Decoder(output[..pos] + [c.value] + output[pos..], code, pos + 1, bias));
  }

  /** `decode`: every `u32` operation is checked, and each failure has its own error. */
  method Decode(input: string) returns (r: Result<string, DecodeError>)
    ensures r == Decoded(input)
  {
    var output: string, encoded: string;
    var dash := LastIndexOf(input, DELIMITER);
    if dash.Some? {
      output, encoded := input[..dash.value], input[dash.value + 1..];
    } else {
      output, encoded := [], input;
    }
    var cp: nat, i: nat, bias: nat := INITIAL_N, 0, INITIAL_BIAS;
    var pos: nat := 0;
    assert encoded[0..] == encoded;
    ghost var goal := Decoded(input);
    while pos < |encoded|
      invariant pos <= |encoded|
      invariant DecodeFrom(encoded[pos..], Decoder(output, cp, i, bias)) == goal
      decreases |encoded| - pos
    {
      var oldI := i;
      var read := ReadInteger(encoded, pos, oldI, bias);
      if read.Err? {
        return Err(read.error);
      }
      pos := read.value.1;
      var next := InsertCodePoint(output, cp, oldI, read.value.0);
      if next.Err? {
        return Err(next.error);
      }
      output, cp, i, bias := next.value.output, next.value.cp, next.value.i, next.value.bias;
    }
    r := Ok(output);
  }

  /** `DecodeStep` without its checks, for a digit `decode` accepts. */
  method DecodeStepUnchecked(byte: char, i: nat, weight: nat, k: nat, bias: nat) returns (r: Digit)
    requires ReadDigit(byte, i, weight, k, bias).Ok?
    ensures Ok(r) == ReadDigit(byte, i, weight, k, bias)
  {
    var digit := DecodeDigit(byte).value;
    TimesIsMul(digit, weight);
    var sum := i + digit * weight;
    var t := Threshold(k, bias);
    TimesIsMul(weight, BASE - t);
    if digit < t {
      return Final(sum);
    }
    return Continue(sum, weight * (BASE - t));
  }

  /** The inner loop of `decode_unchecked`: `ReadInteger` without its checks, for an integer `decode` reads. */
  method ReadIntegerUnchecked(encoded: string, start: nat, i: nat, bias: nat) returns (value: nat, next: nat)
    requires start < |encoded|
    requires ReadInt(encoded[start..], i, 1, BASE, bias).Ok?
    ensures start < next <= |encoded| && ReadInt(encoded[start..], i, 1, BASE, bias) == Ok((value, encoded[next..]))
  {
    var acc: nat := i;
    var pos: nat := start;
    var weight: nat := 1;
    var k: nat := BASE;
    var byte := encoded[pos];
    pos := pos + 1;
    while true
      invariant start < pos <= |encoded| && byte == encoded[pos - 1]
      invariant ReadInt(encoded[pos - 1..], acc, weight, k, bias) == ReadInt(encoded[start..], i, 1, BASE, bias)
      decreases |encoded| - pos
    {
      assert encoded[pos - 1..][1..] == encoded[pos..];
      var step := DecodeStepUnchecked(byte, acc, weight, k, bias);
      match step {
        case Final(sum) =>
          return sum, pos;
        case Continue(sum, scaled) =>
          acc, weight := sum, scaled;
          byte := encoded[pos];
          pos := pos + 1;
          k := k + BASE;
      }
    }
  }

  /** `InsertCodePoint` without its checks, for a step `decode` takes. */
  method InsertCodePointUnchecked(output: string, cp: nat, oldI: nat, i: nat)
    returns (output': string, cp': nat, i': nat, bias: nat)
    requires oldI <= i
    requires Insert(output, cp, oldI, i).Ok?
    ensures Insert(output, cp, oldI, i) == Ok(Decoder(output', cp', i', bias))
  {
    bias := Adapt(i - oldI, |output| + 1, oldI == 0);
    var len := |output| + 1;
    QuotRemIs(i, len);
    cp' := cp + i / len;
    var pos := i % len;
    output' := output[..pos] + [cp' as char] + output[pos..];
    i' := pos + 1;
  }

  /**
   * `decode_unchecked`: the same steps with no check, for input that `decode`
   * accepts (`edna` leaves any other input undefined behaviour).
   */
  method DecodeUnchecked(input: string) returns (r: string)
    requires Decoded(input).Ok?
    ensures Ok(r) == Decoded(input)
  {
    var output: string, encoded: string;
    var dash := LastIndexOf(input, DELIMITER);
    if dash.Some? {
      output, encoded := input[..dash.value], input[dash.value + 1..];
    } else {
      output, encoded := [], input;
    }
    var cp: nat, i: nat, bias: nat := INITIAL_N, 0, INITIAL_BIAS;
    var pos: nat := 0;
    assert encoded[0..] == encoded;
    ghost var goal := Decoded(input);
    while pos < |encoded|
      invariant pos <= |encoded|
      invariant DecodeFrom(encoded[pos..], Decoder(output, cp, i, bias)) == goal
      decreases |encoded| - pos
    {
      var oldI := i;
      var value;
      value, pos := ReadIntegerUnchecked(encoded, pos, oldI, bias);
      output, cp, i, bias := InsertCodePointUnchecked(output, cp, oldI, value);
    }
    r := output;
  }

  /**
   * Multiplication of naturals as repeated addition. The model multiplies
   * with it so that the solver meets no product of two variables;
   * `TimesIsMul` connects it to `*`, which the procedures use.
   */
  function Times(a: nat, b: nat): nat
    decreases b
  {
    if b == 0 then 0 else Times(a, b - 1) + a
  }

  lemma {:induction false} TimesIsMul(a: nat, b: nat)
    ensures Times(a, b) == a * b
    decreases b
  {
    if b > 0 {
      TimesIsMul(a, b - 1);
    }
  }

  lemma {:induction false} TimesAdd(a: nat, a': nat, b: nat)
    ensures Times(a, b) + Times(a', b) == Times(a + a', b)
    decreases b
  {
    if b > 0 {
      TimesAdd(a, a', b - 1);
    }
  }

  /**
   * Euclidean division of naturals as repeated subtraction: the quotient and
   * the remainder. The model divides by a variable with them, so that the
   * solver meets no such division; `QuotRemIs` connects them to `/` and `%`,
   * which the procedures use.
   */
  function Quot(x: nat, n: nat): (r: nat)
    requires n >= 1
    ensures r <= x
    decreases x
  {
    if x < n then 0 else Quot(x - n, n) + 1
  }

  function Rem(x: nat, n: nat): (r: nat)
    requires n >= 1
    ensures r < n
    decreases x
  {
    if x < n then x else Rem(x - n, n)
  }

  /** Quotient and remainder put `x` back together. */
  lemma {:induction false} QuotRem(x: nat, n: nat)
    requires n >= 1
    ensures x == Times(Quot(x, n), n) + Rem(x, n)
    decreases x
  {
    if x < n {
      TimesIsMul(0, n);
    } else {
      QuotRem(x - n, n);
      TimesAdd(Quot(x - n, n), 1, n);
      TimesIsMul(1, n);
    }
  }

  /** A quotient is below `m` when the dividend is below `m` times the divisor. */
  lemma {:induction false} QuotBelow(x: nat, n: nat, m: nat)
    requires n >= 1 && x < m * n
    ensures Quot(x, n) < m
    decreases x
  {
    if x >= n {
      assert (m - 1) * n == m * n - n;
      QuotBelow(x - n, n, m - 1);
    }
  }

  lemma QuotRemIs(x: nat, n: nat)
    requires n >= 1
    ensures Quot(x, n) == x / n && Rem(x, n) == x % n
  {
    QuotRem(x, n);
    TimesIsMul(Quot(x, n), n);
    MulDivPlace(Quot(x, n), n, Rem(x, n));
  }

  lemma {:induction false} MulMono(a: nat, b: nat, c: nat)
    requires a <= b
    ensures a * c <= b * c
    decreases c
  {
    if c > 0 {
      MulMono(a, b, c - 1);
      assert a * c == a * (c - 1) + a;
      assert b * c == b * (c - 1) + b;
    }
  }

  lemma MulDivPlace(c: nat, n: nat, r: nat)
    requires r < n
    ensures (c * n + r) / n == c && (c * n + r) % n == r
  {
    var x := c * n + r;
    DivMod(x, n);
    var q := x / n;
    if q < c {
      MulMono(q + 1, c, n);
    } else if q > c {
      MulMono(c + 1, q, n);
    }
  }


  /** Euclidean division of naturals, stated once so that callers need no nonlinear reasoning. */
  lemma DivMod(a: nat, b: nat)
    requires b >= 1
    ensures 0 <= a / b <= a && 0 <= a % b < b && a == (a / b) * b + a % b
  {
  }

  // ---------------------------------------------------------------------
  // Lemmas about `Below`
  // ---------------------------------------------------------------------

  /** Only a filter that drops nothing is as long as its input. */
  lemma {:induction false} BelowFull(s: string, v: nat)
    ensures |Below(s, v)| < |s| || Below(s, v) == s
  {
    if s != [] && s[0] as nat < v {
      BelowFull(s[1..], v);
    }
  }

  /** Every code point `Below(s, v)` keeps is below `v`. */
  lemma {:induction false} BelowBounded(s: string, v: nat)
    ensures forall j | 0 <= j < |Below(s, v)| :: Below(s, v)[j] as nat < v
  {
    if s != [] {
      BelowBounded(s[1..], v);
      var head: string := if s[0] as nat < v then [s[0]] else [];
      assert forall j | 0 <= j < |Below(s, v)| :: Below(s, v)[j] == if j < |head| then head[j] else Below(s[1..], v)[j - |head|];
    }
  }

  /** A string whose code points are all below `v` is kept whole. */
  lemma {:induction false} BelowAll(s: string, v: nat)
    requires forall j | 0 <= j < |s| :: s[j] as nat < v
    ensures Below(s, v) == s
  {
    if s != [] {
      BelowAll(s[1..], v);
      assert [s[0]] + s[1..] == s;
    }
  }

  lemma {:induction false} BelowAppend(a: string, b: string, v: nat)
    ensures Below(a + b, v) == Below(a, v) + Below(b, v)
  {
    if a == [] {
      assert a + b == b;
    } else {
      assert (a + b)[0] == a[0];
      assert (a + b)[1..] == a[1..] + b;
      BelowAppend(a[1..], b, v);
    }
  }

  /** With no code point in [v, w), the code points below `v` and below `w` are the same. */
  lemma {:induction false} BelowSkip(s: string, v: nat, w: nat)
    requires v <= w
    requires forall j | 0 <= j < |s| && v <= s[j] as nat :: w <= s[j] as nat
    ensures Below(s, v) == Below(s, w)
  {
    if s != [] {
      BelowSkip(s[1..], v, w);
    }
  }

  /** A code point equal to `v` is one more code point below `v + 1`. */
  lemma {:induction false} BelowStep(s: string, v: nat)
    requires exists j | 0 <= j < |s| :: s[j] as nat == v
    ensures |Below(s, v + 1)| > |Below(s, v)|
  {
    if s[0] as nat != v {
      var j :| 0 <= j < |s| && s[j] as nat == v;
      assert s[1..][j - 1] as nat == v;
      BelowStep(s[1..], v);
    } else {
      BelowMono(s[1..], v, v + 1);
    }
  }

  lemma {:induction false} BelowMono(s: string, v: nat, w: nat)
    requires v <= w
    ensures |Below(s, v)| <= |Below(s, w)|
  {
    if s != [] {
      BelowMono(s[1..], v, w);
    }
  }
}
