/**
 * The round trip of the Punycode model: `decode(encode(s)) == s` for inputs of
 * at most 63 code points, the bound `encode` documents.
 */
module PunycodeProofs {
  import opened Wrappers
  import opened Text
  import opened Punycode

  // ---------------------------------------------------------------------
  // Arithmetic used by the round trip
  // ---------------------------------------------------------------------

  lemma TimesComm(a: nat, b: nat)
    ensures Times(a, b) == Times(b, a)
  {
    TimesIsMul(a, b);
    TimesIsMul(b, a);
  }

  lemma {:induction false} TimesDist(a: nat, b: nat, c: nat)
    ensures Times(a, b + c) == Times(a, b) + Times(a, c)
    decreases c
  {
    if c > 0 {
      TimesDist(a, b, c - 1);
    }
  }

  lemma {:induction false} TimesAssoc(a: nat, b: nat, c: nat)
    ensures Times(a, Times(b, c)) == Times(Times(a, b), c)
    decreases c
  {
    if c > 0 {
      TimesAssoc(a, b, c - 1);
      TimesDist(a, Times(b, c - 1), b);
    }
  }

  /** A weight scaled by at most BASE - 1. */
  lemma TimesAtMost(w: nat, x: nat)
    requires x <= BASE - 1
    ensures Times(w, x) <= (BASE - 1) * w
  {
    TimesIsMul(w, x);
    MulMono(x, BASE - 1, w);
  }

  /** A weight times a positive integer is at least the weight. */
  lemma TimesAtLeast(w: nat, q: nat)
    requires 1 <= q
    ensures w <= Times(w, q)
  {
    TimesIsMul(w, q);
    MulMono(1, q, w);
  }

  /** The integer `decode` reads at digit weight `w` for one digit of `encode`. */
  lemma DigitArith(q: nat, t: nat, d: nat, q': nat, w: nat, i: nat)
    requires T_MIN <= t <= T_MAX && t <= d < BASE && q == d + Times(q', BASE - t)
    requires 1 <= w && i + (BASE - 1) * Times(w, q) <= U32_MAX
    ensures Times(d, w) <= U32_MAX && i + Times(d, w) <= U32_MAX
    ensures Times(w, BASE - t) <= U32_MAX
    ensures i + Times(d, w) + (BASE - 1) * Times(Times(w, BASE - t), q') <= U32_MAX
    ensures i + Times(d, w) + Times(Times(w, BASE - t), q') == i + Times(w, q)
  {
    TimesComm(q', BASE - t);
    TimesDist(w, d, Times(BASE - t, q'));
    TimesComm(w, d);
    TimesAssoc(w, BASE - t, q');
    TimesAtMost(w, BASE - t);
    TimesAtLeast(w, q);
  }

  /** `decode`'s inner loop reads an integer from `digits`, raising `i` to `v`, and leaves `rest`. */
  ghost predicate ReadsTo(digits: string, i: nat, w: nat, k: nat, bias: nat, v: nat, rest: string)
  {
    |digits| >= 1 &&
    var r := ReadInt(digits, i, w, k, bias);
    r.Ok? && r.value.0 == v && r.value.1 == rest
  }

  /** The last digit of an integer, below its threshold, ends it. */
  lemma ReadLastDigit(q: nat, k: nat, bias: nat, rest: string, i: nat, w: nat, v: nat)
    requires q < Threshold(k, bias)
    requires 1 <= w && i + (BASE - 1) * Times(w, q) <= U32_MAX && v == i + Times(w, q)
    ensures ReadsTo(EncodeInt(q, k, bias) + rest, i, w, k, bias, v, rest)
  {
    var digits := EncodeInt(q, k, bias) + rest;
    assert EncodeInt(q, k, bias) == [EncodeDigit(q)];
    assert digits[0] == EncodeDigit(q) && digits[1..] == rest;
    TimesComm(q, w);
    var r := ReadDigit(digits[0], i, w, k, bias);
    assert r.Ok? && r.value.Final? && r.value.i == i + Times(q, w);
  }

  /**
   * The quotient `encode` goes on with after a digit at or above its threshold,
   * and the value and weight `decode` reads it at: still in range, and still
   * adding up to `v`.
   */
  lemma NextDigitBound(q: nat, k: nat, bias: nat, i: nat, w: nat, v: nat)
    requires Threshold(k, bias) <= q
    requires 1 <= w && i + (BASE - 1) * Times(w, q) <= U32_MAX && v == i + Times(w, q)
    ensures var t := Threshold(k, bias);
            var q' := Quot(q - t, BASE - t);
            var i' := i + Times(t + Rem(q - t, BASE - t), w);
            var w' := Times(w, BASE - t);
            q' < q && i' <= U32_MAX && w' <= U32_MAX &&
            1 <= w' && i' + (BASE - 1) * Times(w', q') <= U32_MAX && v == i' + Times(w', q')
  {
    var t := Threshold(k, bias);
    var q' := Quot(q - t, BASE - t);
    var r := Rem(q - t, BASE - t);
    QuotRem(q - t, BASE - t);
    DigitArith(q, t, t + r, q', w, i);
    TimesAtLeast(w, BASE - t);
  }

  /** A digit at or above its threshold whose checks pass lets `decode` go on at the next weight. */
  lemma ReadDigitContinue(c: char, i: nat, w: nat, k: nat, bias: nat, d: nat)
    requires DecodeDigit(c) == Some(d) && Threshold(k, bias) <= d
    requires Times(d, w) <= U32_MAX && i + Times(d, w) <= U32_MAX && Times(w, BASE - Threshold(k, bias)) <= U32_MAX
    ensures var r := ReadDigit(c, i, w, k, bias);
            r.Ok? && r.value.Continue? && r.value.i == i + Times(d, w) && r.value.weight == Times(w, BASE - Threshold(k, bias))
  {
  }

  /** After a digit that does not end the integer, `decode` reads on from the next one. */
  lemma ReadIntCons(c: char, tail: string, i: nat, w: nat, k: nat, bias: nat, v: nat, rest: string)
    requires var r := ReadDigit(c, i, w, k, bias); r.Ok? && r.value.Continue?
    requires var r := ReadDigit(c, i, w, k, bias); ReadsTo(tail, r.value.i, r.value.weight, k + BASE, bias, v, rest)
    ensures ReadsTo([c] + tail, i, w, k, bias, v, rest)
  {
    assert ([c] + tail)[0] == c && ([c] + tail)[1..] == tail;
  }

  /** A digit `d` at or above its threshold whose checks pass, then an integer `decode` reads on to `v`. */
  lemma ReadHead(c: char, tail: string, i: nat, w: nat, k: nat, bias: nat, d: nat, i': nat, w': nat, v: nat, rest: string)
    requires DecodeDigit(c) == Some(d) && Threshold(k, bias) <= d
    requires i' == i + Times(d, w) && w' == Times(w, BASE - Threshold(k, bias)) && i' <= U32_MAX && w' <= U32_MAX
    requires ReadsTo(tail, i', w', k + BASE, bias, v, rest)
    ensures ReadsTo([c] + tail, i, w, k, bias, v, rest)
  {
    ReadDigitContinue(c, i, w, k, bias, d);
    ReadIntCons(c, tail, i, w, k, bias, v, rest);
  }

  /** The digits of `q` at or above its threshold: its first digit, then those of the quotient. */
  lemma ConsRest(q: nat, k: nat, bias: nat, rest: string)
    requires Threshold(k, bias) <= q
    ensures var t := Threshold(k, bias);
            EncodeInt(q, k, bias) + rest
            == [EncodeDigit(t + Rem(q - t, BASE - t))] + (EncodeInt(Quot(q - t, BASE - t), k + BASE, bias) + rest)
  {
    var t := Threshold(k, bias);
    EncodeIntCons(q, k, bias);
    AppendAssoc([EncodeDigit(t + Rem(q - t, BASE - t))], EncodeInt(Quot(q - t, BASE - t), k + BASE, bias), rest);
  }

  /**
   * One step of the read-back: the first digit of `q`, then the digits of the
   * quotient `q'`, read from `i'` at weight `w'`, to `v`.
   */
  lemma ReadEncodedStep(q: nat, k: nat, bias: nat, rest: string, i: nat, w: nat, q': nat, i': nat, w': nat, v: nat)
    requires Threshold(k, bias) <= q
    requires var t := Threshold(k, bias);
             q' == Quot(q - t, BASE - t) && i' == i + Times(t + Rem(q - t, BASE - t), w) && w' == Times(w, BASE - t)
    requires i' <= U32_MAX && w' <= U32_MAX
    requires ReadsTo(EncodeInt(q', k + BASE, bias) + rest, i', w', k + BASE, bias, v, rest)
    ensures ReadsTo(EncodeInt(q, k, bias) + rest, i, w, k, bias, v, rest)
  {
    var t := Threshold(k, bias);
    var d := t + Rem(q - t, BASE - t);
    ConsRest(q, k, bias, rest);
    ReadHead(EncodeDigit(d), EncodeInt(q', k + BASE, bias) + rest, i, w, k, bias, d, i', w', v, rest);
  }

  /** The digits `encode` writes for `q` are read back by `decode` as `q`, at any weight that cannot overflow. */
  lemma {:induction false} ReadEncoded(q: nat, k: nat, bias: nat, rest: string, i: nat, w: nat, v: nat)
    requires 1 <= w && i + (BASE - 1) * Times(w, q) <= U32_MAX && v == i + Times(w, q)
    ensures ReadsTo(EncodeInt(q, k, bias) + rest, i, w, k, bias, v, rest)
    decreases q
  {
    var t := Threshold(k, bias);
    if q < t {
      ReadLastDigit(q, k, bias, rest, i, w, v);
    } else {
      var q' := Quot(q - t, BASE - t);
      var i' := i + Times(t + Rem(q - t, BASE - t), w);
      var w' := Times(w, BASE - t);
      NextDigitBound(q, k, bias, i, w, v);
      ReadEncoded(q', k + BASE, bias, rest, i', w', v);
      ReadEncodedStep(q, k, bias, rest, i, w, q', i', w', v);
    }
  }

  lemma {:induction false} TimesMono(a: nat, a': nat, b: nat, b': nat)
    requires a <= a' && b <= b'
    ensures Times(a, b) <= Times(a', b')
    decreases b'
  {
    if b' > 0 {
      if b == b' {
        TimesMono(a, a', b - 1, b' - 1);
      } else {
        TimesMono(a, a', b, b' - 1);
      }
    }
  }

  /** The position and code point `decode` derives from `i`: the quotient and remainder by `n`. */
  lemma DivPlace(c: nat, n: nat, r: nat)
    requires r < n
    ensures Quot(Times(c, n) + r, n) == c && Rem(Times(c, n) + r, n) == r
  {
    QuotRem(Times(c, n) + r, n);
    TimesPlace(Quot(Times(c, n) + r, n), c, n, Rem(Times(c, n) + r, n), r);
  }

  /** Quotient and remainder are unique. */
  lemma TimesPlace(q: nat, c: nat, n: nat, m: nat, r: nat)
    requires m < n && r < n && Times(q, n) + m == Times(c, n) + r
    ensures q == c && m == r
  {
    TimesIsMul(1, n);
    if q < c {
      TimesMono(q + 1, c, n, n);
      TimesAdd(q, 1, n);
    } else if c < q {
      TimesMono(c + 1, q, n, n);
      TimesAdd(c, 1, n);
    }
  }

  // ---------------------------------------------------------------------
  // The round trip
  // ---------------------------------------------------------------------

  /** The code points among the first `j` of `s` that lie below `v`, in order. */
  ghost function Upto(s: string, j: nat, v: nat): (r: string)
    requires j <= |s|
    ensures |r| <= j
  {
    if j == 0 then [] else Upto(s, j - 1, v) + (if s[j - 1] as nat < v then [s[j - 1]] else [])
  }

  /** The code points of `s` from position `j` on that lie below `v`, in order. */
  ghost function From(s: string, j: nat, v: nat): (r: string)
    requires j <= |s|
    ensures |r| <= |s| - j
    decreases |s| - j
  {
    if j == |s| then [] else (if s[j] as nat < v then [s[j]] else []) + From(s, j + 1, v)
  }

  /** `Upto` keeps what `Below` keeps of the first `j` code points. */
  lemma {:induction false} UptoIsBelow(s: string, j: nat, v: nat)
    requires j <= |s|
    ensures Upto(s, j, v) == Below(s[..j], v)
  {
    if j > 0 {
      UptoIsBelow(s, j - 1, v);
      assert s[..j] == s[..j - 1] + [s[j - 1]];
      BelowAppend(s[..j - 1], [s[j - 1]], v);
      assert [s[j - 1]][1..] == [];
    }
  }

  /** `From` keeps what `Below` keeps of the code points from `j` on. */
  lemma {:induction false} FromIsBelow(s: string, j: nat, v: nat)
    requires j <= |s|
    ensures From(s, j, v) == Below(s[j..], v)
    decreases |s| - j
  {
    if j < |s| {
      FromIsBelow(s, j + 1, v);
      assert s[j..][0] == s[j] && s[j..][1..] == s[j + 1..];
    }
  }

  /**
   * Where `decode` stands, in state `d`, once it has read every integer
   * `encode` emitted before position `j` of the round for code point `st.cp`:
   * it has inserted the code points of `s` below `st.cp`, and those equal to
   * it before `j`, in their order in `s`; and its `i` is `st.delta` short of
   * the insertion point of the next occurrence of `st.cp`.
   */
  ghost predicate Mid(s: string, b: nat, j: nat, st: Encoder, d: Decoder)
  {
    j <= |s| <= 63 &&
    d.output == Upto(s, j, st.cp + 1) + From(s, j, st.cp) &&
    b <= st.processed == |d.output| &&
    d.bias == st.bias &&
    (d.i == 0 <==> st.processed == b) &&
    INITIAL_N <= d.cp <= st.cp <= MAX_SCALAR &&
    d.i + st.delta == Times(st.cp - d.cp, |d.output| + 1) + |Upto(s, j, st.cp + 1)|
  }

  /** At an occurrence of `st.cp`, the integer `decode` reads is small enough for no check to fail. */
  lemma EmitBound(s: string, b: nat, j: nat, st: Encoder, d: Decoder)
    requires Mid(s, b, j, st, d) && j < |s| && s[j] as nat == st.cp
    ensures |d.output| < |s|
    ensures d.i + st.delta <= (MAX_SCALAR - INITIAL_N) * 63 + 62
  {
    assert |From(s, j, st.cp)| == |From(s, j + 1, st.cp)|;
    TimesMono(st.cp - d.cp, MAX_SCALAR - INITIAL_N, |d.output| + 1, 63);
    TimesIsMul(MAX_SCALAR - INITIAL_N, 63);
  }

  /** `Insert` for an `i` that `decode` splits into the code point offset `c` and position `r`. */
  lemma InsertAt(output: string, cp: nat, oldI: nat, c: nat, r: nat, ch: char, i: nat, delta: nat, n: nat, first: bool, next: Decoder)
    requires n == |output| + 1 && r < n && i == Times(c, n) + r && i == oldI + delta && cp + c == ch as nat
    requires next.output == output[..r] + [ch] + output[r..] && next.cp == ch as nat && next.i == r + 1
    requires first == (oldI == 0) && next.bias == AdaptBias(delta, n, first)
    ensures Insert(output, cp, oldI, i) == Ok(next)
  {
    DivPlace(c, n, r);
    assert Quot(i, n) == c && Rem(i, n) == r && i - oldI == delta;
    assert FromU32(ch as nat) == Some(ch);
    var inserted := Insert(output, cp, oldI, i);
    assert inserted.Ok? && inserted.value.output == next.output && inserted.value.cp == next.cp;
    assert inserted.value.i == next.i && inserted.value.bias == next.bias;
  }

  /** The decoder state after the occurrence of `st.cp` at `j` is inserted. */
  ghost function Inserted(s: string, b: nat, j: nat, st: Encoder, d: Decoder): Decoder
    requires j < |s|
  {
    Decoder(Upto(s, j, st.cp + 1) + [s[j]] + From(s, j + 1, st.cp), st.cp,
            |Upto(s, j, st.cp + 1)| + 1, AdaptBias(st.delta, st.processed + 1, st.processed == b))
  }

  /** One iteration of `decode`'s outer loop, given what the integer it reads and the insertion come to. */
  lemma DecodeOne(x: string, d: Decoder, i: nat, rest: string, next: Decoder)
    requires ReadsTo(x, d.i, 1, BASE, d.bias, i, rest)
    requires Insert(d.output, d.cp, d.i, i) == Ok(next)
    ensures DecodeFrom(x, d) == DecodeFrom(rest, next)
  {
  }

  /** At an occurrence of `st.cp`, `decode` reads the integer `encode` emits and inserts `s[j]` where it belongs. */
  lemma EmitDecodes(s: string, b: nat, j: nat, st: Encoder, d: Decoder, rest: string)
    requires Mid(s, b, j, st, d) && j < |s| && s[j] as nat == st.cp
    ensures DecodeFrom(EncodeInt(st.delta, BASE, st.bias) + rest, d) == DecodeFrom(rest, Inserted(s, b, j, st, d))
  {
    var i := d.i + st.delta;
    EmitBound(s, b, j, st, d);
    TimesIsMul(1, st.delta);
    ReadEncoded(st.delta, BASE, st.bias, rest, d.i, 1, i);
    EmitInserts(s, b, j, st, d);
    DecodeOne(EncodeInt(st.delta, BASE, st.bias) + rest, d, i, rest, Inserted(s, b, j, st, d));
  }

  /** At an occurrence of `st.cp`, `Insert` puts `s[j]` where it belongs in the output. */
  lemma EmitInserts(s: string, b: nat, j: nat, st: Encoder, d: Decoder)
    requires Mid(s, b, j, st, d) && j < |s| && s[j] as nat == st.cp
    ensures Insert(d.output, d.cp, d.i, d.i + st.delta) == Ok(Inserted(s, b, j, st, d))
  {
    var r := |Upto(s, j, st.cp + 1)|;
    assert From(s, j, st.cp) == [] + From(s, j + 1, st.cp);
    assert d.output[..r] == Upto(s, j, st.cp + 1) && d.output[r..] == From(s, j + 1, st.cp);
    InsertAt(d.output, d.cp, d.i, st.cp - d.cp, r, s[j], d.i + st.delta, st.delta, st.processed + 1, st.processed == b, Inserted(s, b, j, st, d));
  }

  /** After the occurrence of `st.cp` at `j`, encoder and decoder are in step at `j + 1`. */
  lemma EmitKeeps(s: string, b: nat, j: nat, st: Encoder, d: Decoder)
    requires Mid(s, b, j, st, d) && j < |s| && s[j] as nat == st.cp
    ensures Mid(s, b, j + 1, Encoder(st.cp, 0, AdaptBias(st.delta, st.processed + 1, st.processed == b), st.processed + 1), Inserted(s, b, j, st, d))
  {
    assert Upto(s, j + 1, st.cp + 1) == Upto(s, j, st.cp + 1) + [s[j]];
    assert From(s, j, st.cp) == [] + From(s, j + 1, st.cp);
    TimesIsMul(0, |d.output| + 2);
  }

  /** Past a code point below `st.cp`, encoder and decoder stay in step, and `delta` counts it. */
  lemma PassBelow(s: string, b: nat, j: nat, st: Encoder, d: Decoder)
    requires Mid(s, b, j, st, d) && j < |s| && s[j] as nat < st.cp
    ensures Mid(s, b, j + 1, st.(delta := st.delta + 1), d)
  {
    var left := Upto(s, j, st.cp + 1);
    var right := From(s, j + 1, st.cp);
    assert Upto(s, j + 1, st.cp + 1) == left + [s[j]];
    assert d.output == left + ([s[j]] + right);
    assert left + ([s[j]] + right) == (left + [s[j]]) + right;
  }

  /** Past a code point above `st.cp`, nothing changes. */
  lemma PassAbove(s: string, b: nat, j: nat, st: Encoder, d: Decoder)
    requires Mid(s, b, j, st, d) && j < |s| && s[j] as nat > st.cp
    ensures Mid(s, b, j + 1, st, d)
  {
    assert Upto(s, j + 1, st.cp + 1) == Upto(s, j, st.cp + 1) + [];
    assert From(s, j, st.cp) == [] + From(s, j + 1, st.cp);
  }

  /** The encoder state after the `for` loop's iteration at `j`. */
  ghost function StepEnc(s: string, b: nat, j: nat, st: Encoder): Encoder
    requires j < |s|
  {
    if s[j] as nat < st.cp then st.(delta := st.delta + 1)
    else if s[j] as nat == st.cp then
      Encoder(st.cp, 0, AdaptBias(st.delta, st.processed + 1, st.processed == b), st.processed + 1)
    else st
  }

  /** The digits the `for` loop's iteration at `j` emits. */
  ghost function StepDigits(s: string, j: nat, st: Encoder): string
    requires j < |s|
  {
    if s[j] as nat == st.cp then EncodeInt(st.delta, BASE, st.bias) else []
  }

  /** The decoder state after reading what the `for` loop's iteration at `j` emits. */
  ghost function StepDec(s: string, b: nat, j: nat, st: Encoder, d: Decoder): Decoder
    requires j < |s|
  {
    if s[j] as nat == st.cp then Inserted(s, b, j, st, d) else d
  }

  /** One iteration of the `for` loop, as `StepEnc` and `StepDigits` describe it. */
  lemma ScanStep(s: string, b: nat, j: nat, st: Encoder)
    requires j < |s|
    ensures Scan(s, b, j, st) == (StepDigits(s, j, st) + Scan(s, b, j + 1, StepEnc(s, b, j, st)).0,
                                  Scan(s, b, j + 1, StepEnc(s, b, j, st)).1)
  {
    if s[j] as nat != st.cp {
      assert [] + Scan(s, b, j + 1, StepEnc(s, b, j, st)).0 == Scan(s, b, j + 1, StepEnc(s, b, j, st)).0;
    }
  }

  /** One iteration of the `for` loop keeps encoder and decoder in step. */
  lemma StepKeeps(s: string, b: nat, j: nat, st: Encoder, d: Decoder)
    requires Mid(s, b, j, st, d) && j < |s|
    ensures Mid(s, b, j + 1, StepEnc(s, b, j, st), StepDec(s, b, j, st, d))
  {
    if s[j] as nat < st.cp {
      PassBelow(s, b, j, st, d);
    } else if s[j] as nat == st.cp {
      EmitKeeps(s, b, j, st, d);
    } else {
      PassAbove(s, b, j, st, d);
    }
  }

  /** `decode` reads what one iteration of the `for` loop emits. */
  lemma StepDecodes(s: string, b: nat, j: nat, st: Encoder, d: Decoder, rest: string)
    requires Mid(s, b, j, st, d) && j < |s|
    ensures DecodeFrom(StepDigits(s, j, st) + rest, d) == DecodeFrom(rest, StepDec(s, b, j, st, d))
  {
    if s[j] as nat == st.cp {
      EmitDecodes(s, b, j, st, d, rest);
    } else {
      assert [] + rest == rest;
    }
  }

  /** The state `decode` reaches after reading what the rest of a round's `for` loop emits. */
  ghost function After(s: string, b: nat, j: nat, st: Encoder, d: Decoder): Decoder
    requires j <= |s|
    decreases |s| - j
  {
    if j == |s| then d
    else After(s, b, j + 1, StepEnc(s, b, j, st), StepDec(s, b, j, st, d))
  }

  /** Over the rest of a round's `for` loop, encoder and decoder stay in step. */
  lemma {:induction false} ScanKeeps(s: string, b: nat, j: nat, st: Encoder, d: Decoder)
    requires Mid(s, b, j, st, d)
    ensures Mid(s, b, |s|, Scan(s, b, j, st).1, After(s, b, j, st, d))
    decreases |s| - j
  {
    if j < |s| {
      StepKeeps(s, b, j, st, d);
      ScanStep(s, b, j, st);
      ScanKeeps(s, b, j + 1, StepEnc(s, b, j, st), StepDec(s, b, j, st, d));
    }
  }

  /** If `decode` reads what the `for` loop emits at `j` and from `j + 1` on, it reads what the loop emits from `j` on. */
  lemma DecodesFromStep(s: string, b: nat, j: nat, st: Encoder, d: Decoder, rest: string)
    requires j < |s|
    requires var next := StepEnc(s, b, j, st);
             var tail := Scan(s, b, j + 1, next).0;
             DecodeFrom(StepDigits(s, j, st) + (tail + rest), d) == DecodeFrom(tail + rest, StepDec(s, b, j, st, d))
    requires var next := StepEnc(s, b, j, st);
             DecodeFrom(Scan(s, b, j + 1, next).0 + rest, StepDec(s, b, j, st, d))
             == DecodeFrom(rest, After(s, b, j + 1, next, StepDec(s, b, j, st, d)))
    ensures DecodeFrom(Scan(s, b, j, st).0 + rest, d) == DecodeFrom(rest, After(s, b, j, st, d))
  {
    var digits := StepDigits(s, j, st);
    var tail := Scan(s, b, j + 1, StepEnc(s, b, j, st)).0;
    ScanStep(s, b, j, st);
    AppendAssoc(digits, tail, rest);
  }

  /** If `decode` reads what the `for` loop emits from `j + 1` on, it reads what the loop emits from `j` on. */
  lemma DecodesOn(s: string, b: nat, j: nat, st: Encoder, d: Decoder, rest: string)
    requires Mid(s, b, j, st, d) && j < |s|
    requires var next := StepEnc(s, b, j, st);
             DecodeFrom(Scan(s, b, j + 1, next).0 + rest, StepDec(s, b, j, st, d))
             == DecodeFrom(rest, After(s, b, j + 1, next, StepDec(s, b, j, st, d)))
    ensures DecodeFrom(Scan(s, b, j, st).0 + rest, d) == DecodeFrom(rest, After(s, b, j, st, d))
  {
    StepDecodes(s, b, j, st, d, Scan(s, b, j + 1, StepEnc(s, b, j, st)).0 + rest);
    DecodesFromStep(s, b, j, st, d, rest);
  }

  /** Over the rest of a round's `for` loop, `decode` reads what `encode` emits and inserts each occurrence of `st.cp`. */
  lemma {:induction false} ScanDecodes(s: string, b: nat, j: nat, st: Encoder, d: Decoder, rest: string)
    requires Mid(s, b, j, st, d)
    ensures DecodeFrom(Scan(s, b, j, st).0 + rest, d) == DecodeFrom(rest, After(s, b, j, st, d))
    decreases |s| - j
  {
    if j == |s| {
      assert [] + rest == rest;
    } else {
      StepKeeps(s, b, j, st, d);
      ScanDecodes(s, b, j + 1, StepEnc(s, b, j, st), StepDec(s, b, j, st, d), rest);
      DecodesOn(s, b, j, st, d, rest);
    }
  }

  /**
   * Where `decode` stands, in state `d`, at the start of the round that
   * `encode` begins in state `st`: it has inserted every code point of `s`
   * below `st.cp`, and its `i` is `st.delta` short of `st.cp - d.cp` full
   * passes over the output.
   */
  ghost predicate Between(s: string, b: nat, st: Encoder, d: Decoder)
  {
    |s| <= 63 &&
    d.output == Below(s, st.cp) &&
    b <= st.processed == |d.output| &&
    d.bias == st.bias &&
    (d.i == 0 <==> st.processed == b) &&
    INITIAL_N <= d.cp <= st.cp &&
    d.i + st.delta == Times(st.cp - d.cp, |d.output| + 1)
  }

  /** The smallest code point not yet inserted is a code point of `s`, so a scalar value. */
  lemma MinIsScalar(s: string, v: nat)
    requires |Below(s, v)| < |s|
    ensures MinAtLeast(s, v) <= MAX_SCALAR
  {
    var j :| 0 <= j < |s| && s[j] as nat == MinAtLeast(s, v);
  }

  /** No code point of `s` lies between the round's old `cp` and the smallest one not yet inserted. */
  lemma MinSkips(s: string, v: nat)
    requires |Below(s, v)| < |s|
    ensures Below(s, v) == Below(s, MinAtLeast(s, v))
  {
    BelowSkip(s, v, MinAtLeast(s, v));
  }

  /** Jumping `cp` from `c` to `m` adds `m - c` full passes over `n` positions. */
  lemma StartDelta(x: nat, dcp: nat, c: nat, m: nat, n: nat)
    requires dcp <= c <= m && x == Times(c - dcp, n)
    ensures x + Times(m - c, n) == Times(m - dcp, n)
  {
    TimesAdd(c - dcp, m - c, n);
  }

  /** Moving `cp` to a scalar `m` above which no code point is skipped starts the round's `for` loop in step. */
  lemma StartsAt(s: string, b: nat, st: Encoder, d: Decoder, m: nat)
    requires Between(s, b, st, d) && st.cp <= m <= MAX_SCALAR && Below(s, st.cp) == Below(s, m)
    ensures Mid(s, b, 0, Jump(st, m), d)
  {
    StartDelta(d.i + st.delta, d.cp, st.cp, m, st.processed + 1);
    FromIsBelow(s, 0, m);
    assert s[0..] == s;
  }

  /** Moving `cp` to the smallest code point not yet inserted starts the round's `for` loop in step. */
  lemma RoundStarts(s: string, b: nat, st: Encoder, d: Decoder)
    requires Between(s, b, st, d) && st.processed < |s|
    ensures Mid(s, b, 0, Jump(st, MinAtLeast(s, st.cp)), d)
  {
    MinIsScalar(s, st.cp);
    MinSkips(s, st.cp);
    StartsAt(s, b, st, d, MinAtLeast(s, st.cp));
  }

  /** At the end of the round's `for` loop, moving `cp` and `delta` on by one starts the next round in step. */
  lemma RoundEnds(s: string, b: nat, st: Encoder, d: Decoder)
    requires Mid(s, b, |s|, st, d)
    ensures Between(s, b, Encoder(st.cp + 1, st.delta + 1, st.bias, st.processed), d)
  {
    var n := |d.output| + 1;
    UptoIsBelow(s, |s|, st.cp + 1);
    assert s[..|s|] == s;
    assert d.output == Below(s, st.cp + 1);
    TimesIsMul(1, n);
    TimesAdd(st.cp - d.cp, 1, n);
  }

  /** The state `decode` reaches after reading what a round of `encode` emits. */
  ghost function AfterRound(s: string, b: nat, st: Encoder, d: Decoder): Decoder
    requires st.processed == |Below(s, st.cp)| < |s|
  {
    After(s, b, 0, Jump(st, MinAtLeast(s, st.cp)), d)
  }

  /** A round keeps encoder and decoder in step from one boundary to the next. */
  lemma RoundKeeps(s: string, b: nat, st: Encoder, d: Decoder)
    requires st.processed == |Below(s, st.cp)| < |s|
    requires Between(s, b, st, d)
    ensures Between(s, b, Round(s, b, st).1, AfterRound(s, b, st, d))
  {
    var first := Jump(st, MinAtLeast(s, st.cp));
    var scan := Scan(s, b, 0, first).1;
    assert Mid(s, b, |s|, scan, AfterRound(s, b, st, d)) by {
      RoundStarts(s, b, st, d);
      ScanKeeps(s, b, 0, first, d);
    }
    assert Round(s, b, st).1 == Encoder(scan.cp + 1, scan.delta + 1, scan.bias, scan.processed) by {
      ScanCount(s, b, 0, first);
    }
    RoundEnds(s, b, scan, AfterRound(s, b, st, d));
  }

  /** Over a round, `decode` reads what `encode` emits. */
  lemma RoundDecodes(s: string, b: nat, st: Encoder, d: Decoder)
    requires st.processed == |Below(s, st.cp)| < |s|
    requires Between(s, b, st, d)
    ensures DecodeFrom(Rounds(s, b, st), d) == DecodeFrom(Rounds(s, b, Round(s, b, st).1), AfterRound(s, b, st, d))
  {
    var first := Jump(st, MinAtLeast(s, st.cp));
    RoundStarts(s, b, st, d);
    ScanDecodes(s, b, 0, first, d, Rounds(s, b, Round(s, b, st).1));
  }

  /** From a round boundary on, `decode` reads what `encode` emits and ends with `s`. */
  lemma {:induction false} RoundsDecode(s: string, b: nat, st: Encoder, d: Decoder)
    requires st.processed == |Below(s, st.cp)|
    requires Between(s, b, st, d)
    ensures DecodeFrom(Rounds(s, b, st), d) == Ok(s)
    decreases |s| - st.processed
  {
    if st.processed >= |s| {
      BelowFull(s, st.cp);
    } else {
      RoundKeeps(s, b, st, d);
      RoundDecodes(s, b, st, d);
      RoundsDecode(s, b, Round(s, b, st).1, AfterRound(s, b, st, d));
    }
  }

  /** The last delimiter of `a + [c] + t` is the one after `a` when `t` has none. */
  lemma {:induction false} LastDelimiter(a: string, t: string)
    requires DELIMITER !in t
    ensures LastIndexOf(a + [DELIMITER] + t, DELIMITER) == Some(|a|)
    decreases |t|
  {
    var x := a + [DELIMITER] + t;
    if t == [] {
      assert x[|x| - 1] == DELIMITER;
    } else {
      var t' := t[..|t| - 1];
      assert x[|x| - 1] == t[|t| - 1];
      assert x[..|x| - 1] == a + [DELIMITER] + t';
      LastDelimiter(a, t');
    }
  }

  /** `decode` splits what `encode` wrote into the basic code points and the digits. */
  lemma StartOfEncoded(s: string)
    ensures var basic := Below(s, INITIAL_N);
            Start(Encoded(s)) == (Rounds(s, |basic|, Encoder(INITIAL_N, 0, INITIAL_BIAS, |basic|)),
                                  Decoder(basic, INITIAL_N, 0, INITIAL_BIAS))
  {
    var basic := Below(s, INITIAL_N);
    var digits := Rounds(s, |basic|, Encoder(INITIAL_N, 0, INITIAL_BIAS, |basic|));
    assert DELIMITER !in digits by {
      RoundsDigits(s, |basic|, Encoder(INITIAL_N, 0, INITIAL_BIAS, |basic|));
      assert forall j | 0 <= j < |digits| :: IsDigitChar(digits[j]);
    }
    if |basic| > 0 {
      LastDelimiter(basic, digits);
      assert Encoded(s)[|basic| + 1..] == digits && Encoded(s)[..|basic|] == basic;
    } else {
      assert basic == [] && Encoded(s) == digits;
    }
  }

  /**
   * The round trip: for at most 63 code points, `decode` returns exactly
   * what `encode` was given.
   */
  lemma RoundTrip(s: string)
    requires |s| <= 63
    ensures Decoded(Encoded(s)) == Ok(s)
  {
    var basic := Below(s, INITIAL_N);
    var st := Encoder(INITIAL_N, 0, INITIAL_BIAS, |basic|);
    var d := Decoder(basic, INITIAL_N, 0, INITIAL_BIAS);
    StartOfEncoded(s);
    TimesIsMul(0, |basic| + 1);
    assert Between(s, |basic|, st, d);
    RoundsDecode(s, |basic|, st, d);
  }
}
