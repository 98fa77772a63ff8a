/**
 * Further properties of the Punycode model: the digit alphabet, the layout
 * of what `encode` writes, and how `decode` fails.
 */
module PunycodeFacts {
  import opened Wrappers
  import opened Text
  import opened Punycode

  // ---------------------------------------------------------------------
  // The digit alphabet
  // ---------------------------------------------------------------------

  /** Every character `encode` may write for a digit is the encoding of the value `decode_digit` gives it. */
  lemma DigitCharDecodes(c: char)
    requires IsDigitChar(c)
    ensures DecodeDigit(c).Some? && EncodeDigit(DecodeDigit(c).value) == c
  {
  }

  /** `decode_digit` does not distinguish an upper-case letter from its lower-case form. */
  lemma DecodeDigitIgnoresCase(c: char)
    ensures DecodeDigit(ToAsciiLower(c)) == DecodeDigit(c)
  {
  }

  /** Reading one digit does not depend on its case. */
  lemma ReadDigitIgnoresCase(c: char, i: nat, w: nat, k: nat, bias: nat)
    ensures ReadDigit(ToAsciiLower(c), i, w, k, bias) == ReadDigit(c, i, w, k, bias)
  {
    DecodeDigitIgnoresCase(c);
  }

  /** Reading an integer does not depend on the case of its digits, and leaves the rest lowered. */
  lemma {:induction false} ReadIntIgnoresCase(digits: string, i: nat, w: nat, k: nat, bias: nat)
    requires |digits| >= 1
    ensures var r := ReadInt(digits, i, w, k, bias);
            var l := ReadInt(LowerAll(digits), i, w, k, bias);
            (r.Err? ==> l == r) && (r.Ok? ==> l == Ok((r.value.0, LowerAll(r.value.1))))
    decreases |digits|
  {
    var low := LowerAll(digits);
    assert low[0] == ToAsciiLower(digits[0]) && low[1..] == LowerAll(digits[1..]);
    ReadDigitIgnoresCase(digits[0], i, w, k, bias);
    var step := ReadDigit(digits[0], i, w, k, bias);
    if step.Ok? && step.value.Continue? && |digits| > 1 {
      ReadIntIgnoresCase(digits[1..], step.value.i, step.value.weight, k + BASE, bias);
    }
  }

  /** `decode` reads upper-case digits as their lower-case forms (the mixed-case vector `baDot`). */
  lemma {:induction false} DecodeFromIgnoresCase(digits: string, d: Decoder)
    ensures DecodeFrom(LowerAll(digits), d) == DecodeFrom(digits, d)
    decreases |digits|
  {
    if digits != [] {
      ReadIntIgnoresCase(digits, d.i, 1, BASE, d.bias);
      var r := ReadInt(digits, d.i, 1, BASE, d.bias);
      if r.Ok? {
        var next := Insert(d.output, d.cp, d.i, r.value.0);
        if next.Ok? {
          DecodeFromIgnoresCase(r.value.1, next.value);
        }
      }
    }
  }

  // ---------------------------------------------------------------------
  // What `encode` writes
  // ---------------------------------------------------------------------

  /**
   * `encode` writes the ASCII code points of its input in their order, then a
   * delimiter exactly when there was at least one, then digits only.
   */
  lemma EncodedLayout(s: string)
    ensures var basic := Below(s, INITIAL_N);
            var r := Encoded(s);
            var digitsFrom := if |basic| > 0 then |basic| + 1 else 0;
            digitsFrom <= |r| && r[..|basic|] == basic &&
            (|basic| > 0 ==> r[|basic|] == DELIMITER) &&
            AllDigitChars(r[digitsFrom..]) &&
            (DELIMITER in r[|basic|..] <==> |basic| > 0)
  {
    var basic := Below(s, INITIAL_N);
    var digits := Rounds(s, |basic|, Encoder(INITIAL_N, 0, INITIAL_BIAS, |basic|));
    var r := Encoded(s);
    var digitsFrom := if |basic| > 0 then |basic| + 1 else 0;
    RoundsDigits(s, |basic|, Encoder(INITIAL_N, 0, INITIAL_BIAS, |basic|));
    assert r[digitsFrom..] == digits;
    assert r[..|basic|] == basic;
    if |basic| == 0 {
      assert r[|basic|..] == digits;
    } else {
      assert r[|basic|..][0] == DELIMITER;
    }
  }

  /** Every character of `s` below `v` kept by `Below` comes from `s`. */
  lemma {:induction false} BelowFrom(s: string, v: nat)
    ensures forall x | x in Below(s, v) :: x in s
  {
    if s != [] {
      BelowFrom(s[1..], v);
      assert forall x | x in s[1..] :: x in s;
    }
  }

  /** `encode` writes only characters of its input, the delimiter and digits. */
  lemma EncodedChars(s: string)
    ensures forall x | x in Encoded(s) :: x in s || x == DELIMITER || IsDigitChar(x)
  {
    var basic := Below(s, INITIAL_N);
    var digits := Rounds(s, |basic|, Encoder(INITIAL_N, 0, INITIAL_BIAS, |basic|));
    var delimiter := if |basic| > 0 then [DELIMITER] else [];
    BelowFrom(s, INITIAL_N);
    RoundsDigits(s, |basic|, Encoder(INITIAL_N, 0, INITIAL_BIAS, |basic|));
    assert forall x | x in digits :: IsDigitChar(x);
    assert Encoded(s) == basic + delimiter + digits;
  }

  /** A label of ASCII code points only is written unchanged, followed by a delimiter when it is not empty. */
  lemma EncodedAllAscii(s: string)
    requires AllAscii(s)
    ensures Encoded(s) == if s == [] then [] else s + [DELIMITER]
  {
    BelowAll(s, INITIAL_N);
    assert Rounds(s, |s|, Encoder(INITIAL_N, 0, INITIAL_BIAS, |s|)) == [];
  }

  // ---------------------------------------------------------------------
  // How `decode` fails
  // ---------------------------------------------------------------------

  predicate AllAlphanumeric(s: string) {
    forall j | 0 <= j < |s| :: IsAsciiAlphanumeric(s[j])
  }

  /** A first digit outside `0-9`, `A-Z`, `a-z` stops `decode` with `NonAscii`. */
  lemma DecodeFromNonAscii(digits: string, d: Decoder)
    requires |digits| >= 1 && !IsAsciiAlphanumeric(digits[0])
    ensures DecodeFrom(digits, d) == Err(NonAscii)
  {
  }

  /**
   * One digit of `decode`, in the `u32` arithmetic of `edna`: `Overflow` exactly when
   * `digit * weight`, `i + digit * weight` or, for a digit at or above the
   * threshold, `weight * (BASE - t)` exceeds `u32`; otherwise the digit ends
   * the integer exactly when it is below the threshold.
   */
  lemma ReadDigitOutcome(c: char, i: nat, weight: nat, k: nat, bias: nat)
    requires IsAsciiAlphanumeric(c)
    ensures var d := DecodeDigit(c).value;
            var t := Threshold(k, bias);
            var r := ReadDigit(c, i, weight, k, bias);
            (r == Err(Overflow) <==>
               d * weight > U32_MAX || i + d * weight > U32_MAX || (t <= d && weight * (BASE - t) > U32_MAX)) &&
            (r.Ok? ==> r.value.i == i + d * weight && (r.value.Final? <==> d < t)) &&
            (r.Ok? && r.value.Continue? ==> r.value.weight == weight * (BASE - t))
  {
    var d := DecodeDigit(c).value;
    var t := Threshold(k, bias);
    TimesIsMul(d, weight);
    TimesIsMul(weight, BASE - t);
  }

  /** An integer read from alphanumeric digits never fails with `NonAscii`, and the rest is alphanumeric too. */
  lemma {:induction false} ReadIntAlphanumeric(digits: string, i: nat, w: nat, k: nat, bias: nat)
    requires |digits| >= 1 && AllAlphanumeric(digits)
    ensures var r := ReadInt(digits, i, w, k, bias);
            r != Err(NonAscii) && (r.Ok? ==> AllAlphanumeric(r.value.1))
    decreases |digits|
  {
    var step := ReadDigit(digits[0], i, w, k, bias);
    if step.Ok? && step.value.Continue? && |digits| > 1 {
      ReadIntAlphanumeric(digits[1..], step.value.i, step.value.weight, k + BASE, bias);
    }
  }

  /** `decode` fails with `NonAscii` only on a character outside `0-9`, `A-Z`, `a-z`. */
  lemma {:induction false} DecodeFromAlphanumeric(digits: string, d: Decoder)
    requires AllAlphanumeric(digits)
    ensures DecodeFrom(digits, d) != Err(NonAscii)
    decreases |digits|
  {
    if digits != [] {
      ReadIntAlphanumeric(digits, d.i, 1, BASE, d.bias);
      var r := ReadInt(digits, d.i, 1, BASE, d.bias);
      if r.Ok? {
        var next := Insert(d.output, d.cp, d.i, r.value.0);
        if next.Ok? {
          DecodeFromAlphanumeric(r.value.1, next.value);
        }
      }
    }
  }

  /**
   * Every digit of `digits`, read in turn from `i` at weight `w`, passes the
   * `u32` checks and asks for another digit: none of them ends an integer.
   */
  predicate Continues(digits: string, i: nat, w: nat, k: nat, bias: nat)
    decreases |digits|
  {
    |digits| == 0 ||
    var step := ReadDigit(digits[0], i, w, k, bias);
    step.Ok? && step.value.Continue? && Continues(digits[1..], step.value.i, step.value.weight, k + BASE, bias)
  }

  /**
   * `InvalidSequence` means exactly that the input ended inside an integer:
   * every digit was valid, passed the `u32` checks and asked for another.
   */
  lemma {:induction false} ReadIntTruncated(digits: string, i: nat, w: nat, k: nat, bias: nat)
    requires |digits| >= 1
    ensures ReadInt(digits, i, w, k, bias) == Err(InvalidSequence) <==> Continues(digits, i, w, k, bias)
    ensures ReadInt(digits, i, w, k, bias) == Err(InvalidSequence) ==> AllAlphanumeric(digits)
    decreases |digits|
  {
    var step := ReadDigit(digits[0], i, w, k, bias);
    if |digits| > 1 && step.Ok? && step.value.Continue? {
      ReadIntTruncated(digits[1..], step.value.i, step.value.weight, k + BASE, bias);
      assert forall j | 1 <= j < |digits| :: digits[j] == digits[1..][j - 1];
    }
  }

  /**
   * The end of an iteration of `decode`'s outer loop, in the `u32`
   * arithmetic of `edna`: `Overflow` when `cp + i / len` exceeds `u32`,
   * `InvalidCodePoint` when it is no scalar value, and otherwise that code
   * point inserted at `i % len`, at most the current output length.
   */
  lemma InsertOutcome(output: string, cp: nat, oldI: nat, i: nat)
    requires oldI <= i
    ensures var len := |output| + 1;
            var r := Insert(output, cp, oldI, i);
            (r == Err(Overflow) <==> cp + i / len > U32_MAX) &&
            (r == Err(InvalidCodePoint) <==> cp + i / len <= U32_MAX && !IsScalar(cp + i / len)) &&
            (r.Ok? <==> cp + i / len <= U32_MAX && IsScalar(cp + i / len)) &&
            (r.Ok? ==> i % len <= |output| && r.value.cp == cp + i / len && r.value.i == i % len + 1 &&
                       r.value.output == output[..i % len] + [(cp + i / len) as char] + output[i % len..])
  {
    QuotRemIs(i, |output| + 1);
  }

  /** A label ending in the delimiter has no digits: `decode` returns what precedes it. */
  lemma DecodedTrailingDelimiter(s: string)
    ensures Decoded(s + [DELIMITER]) == Ok(s)
  {
    var x := s + [DELIMITER];
    assert LastIndexOf(x, DELIMITER) == Some(|s|);
    assert x[..|s|] == s && x[|s| + 1..] == [];
  }

  /** Every ASCII label survives `encode` then `decode`, whatever its length. */
  lemma AsciiRoundTrip(s: string)
    requires AllAscii(s) && s != []
    ensures Decoded(Encoded(s)) == Ok(s)
  {
    EncodedAllAscii(s);
    DecodedTrailingDelimiter(s);
  }

  /** A lone digit that asks for more: `"9"` ends inside an integer. */
  lemma DecodedSingleContinuingDigit()
    ensures Decoded("9") == Err(InvalidSequence)
  {
    assert LastIndexOf("9", DELIMITER) == None;
    assert DecodeDigit('9') == Some(35);
    TimesIsMul(35, 1);
    TimesIsMul(1, BASE - 1);
    assert ReadDigit('9', 0, 1, BASE, INITIAL_BIAS) == Ok(Continue(35, 35));
  }
}
