/**
 * Characters and strings as the Rust code sees them: a `char` is a Unicode
 * scalar value (Dafny's `char` is exactly that), a string a sequence of them.
 * Byte offsets into UTF-8 are modelled as positions in the sequence.
 */
module Text {
  import opened Wrappers

  const MAX_SCALAR: nat := 0x10FFFF

  /** The largest `u32`: checked `u32` arithmetic fails beyond it. */
  const U32_MAX: nat := 0xFFFF_FFFF

  /** A Unicode scalar value: a code point that is not a surrogate. */
  predicate IsScalar(n: int) {
    0 <= n < 0xD800 || 0xE000 <= n <= MAX_SCALAR
  }

  /** `char::from_u32`. */
  function FromU32(n: nat): (r: Option<char>)
    ensures r.Some? <==> IsScalar(n)
    ensures r.Some? ==> r.value as int == n
  {
    if IsScalar(n) then Some(n as char) else None
  }

  predicate IsAscii(c: char) { c as int < 0x80 }
  predicate IsAsciiLower(c: char) { 'a' <= c <= 'z' }
  predicate IsAsciiUpper(c: char) { 'A' <= c <= 'Z' }
  predicate IsAsciiDigit(c: char) { '0' <= c <= '9' }
  predicate IsAsciiAlphanumeric(c: char) { IsAsciiLower(c) || IsAsciiUpper(c) || IsAsciiDigit(c) }

  /** `str::is_ascii`. */
  predicate AllAscii(s: string) {
    forall j | 0 <= j < |s| :: IsAscii(s[j])
  }

  /** `char::to_ascii_lowercase`. */
  function ToAsciiLower(c: char): (r: char)
    ensures IsAsciiUpper(c) ==> IsAsciiLower(r) && r as int == c as int + 32
    ensures !IsAsciiUpper(c) ==> r == c
  {
    if IsAsciiUpper(c) then (c as int + 32) as char else c
  }

  /** `s` with every ASCII upper-case letter lowered (`str::to_ascii_lowercase`). */
  function LowerAll(s: string): (r: string)
    ensures |r| == |s|
    ensures forall j | 0 <= j < |s| :: r[j] == ToAsciiLower(s[j])
  {
    if s == [] then [] else [ToAsciiLower(s[0])] + LowerAll(s[1..])
  }

  /** The position of the first occurrence of `c` (`str::find` with a `char` pattern). */
  function FirstIndexOf(s: string, c: char): (r: Option<nat>)
    ensures r.Some? ==> r.value < |s| && s[r.value] == c
    ensures r.Some? ==> forall j | 0 <= j < r.value :: s[j] != c
    ensures r.None? <==> c !in s
  {
    if s == [] then None
    else if s[0] == c then Some(0)
    else match FirstIndexOf(s[1..], c)
      case None => None
      case Some(j) => Some(j + 1)
  }

  /** A position holding `c` with no `c` before it is the first occurrence. */
  lemma FirstIndexOfIs(s: string, c: char, i: nat)
    requires i < |s| && s[i] == c
    requires forall j | 0 <= j < i :: s[j] != c
    ensures FirstIndexOf(s, c) == Some(i)
  {
  }

  /** The position of the last occurrence of `c` (where `rsplit_once` splits). */
  function LastIndexOf(s: string, c: char): (r: Option<nat>)
    ensures r.Some? ==> r.value < |s| && s[r.value] == c
    ensures r.Some? ==> forall j | r.value < j < |s| :: s[j] != c
    ensures r.None? <==> c !in s
  {
    if s == [] then None
    else if s[|s| - 1] == c then Some(|s| - 1)
    else LastIndexOf(s[..|s| - 1], c)
  }

  /** Concatenating ASCII strings gives an ASCII string. */
  lemma AsciiAppend(a: string, b: string)
    requires AllAscii(a) && AllAscii(b)
    ensures AllAscii(a + b)
  {
    assert forall k | 0 <= k < |a + b| :: (a + b)[k] == if k < |a| then a[k] else b[k - |a|];
  }

  /** What precedes and what follows a position of an ASCII string are ASCII. */
  lemma AsciiAround(s: string, i: nat)
    requires AllAscii(s) && i < |s|
    ensures AllAscii(s[..i]) && AllAscii(s[i + 1..])
  {
    assert forall j | 0 <= j < i :: s[..i][j] == s[j];
    var rest := s[i + 1..];
    assert forall j | 0 <= j < |rest| :: rest[j] == s[j + i + 1];
  }

  /** Concatenation is associative; stated once so that larger proofs need not argue it element by element. */
  lemma AppendAssoc(a: string, b: string, c: string)
    ensures (a + b) + c == a + (b + c)
  {
  }

  /** A string is what precedes position `i`, the character there, and what follows. */
  lemma SplitAround(s: string, i: nat)
    requires i < |s|
    ensures s == s[..i] + [s[i]] + s[i + 1..]
  {
  }
}
