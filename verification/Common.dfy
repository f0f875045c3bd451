/** Vocabulary shared by every module: optional values, machine words, and the
    bitwise operators of the source on unbounded naturals. */
module Common {

  datatype Option<+T> = None | Some(value: T)

  datatype Result<+T, +E> = Ok(value: T) | Err(error: E) {
    predicate IsFailure() { Err? }

    function PropagateFailure<U>(): Result<U, E>
      requires Err?
    {
      Err(error)
    }

    function Extract(): T
      requires Ok?
    {
      value
    }
  }

  type byte = n: nat | n < 0x100

  type word = n: nat | n < 0x1_0000_0000

  type bit = n: nat | n < 2

  /** `1 << n` */
  function Pow2(n: nat): (p: nat)
    ensures p >= 1
  {
    if n == 0 then 1 else 2 * Pow2(n - 1)
  }

  /** `a & b` on non-negative integers */
  function BitAnd(a: nat, b: nat): (r: nat)
    ensures r <= a && r <= b
  {
    if a == 0 || b == 0 then 0
    else 2 * BitAnd(a / 2, b / 2) + (if a % 2 == 1 && b % 2 == 1 then 1 else 0)
  }

  /** `a | b` on non-negative integers */
  function BitOr(a: nat, b: nat): (r: nat)
    ensures a <= r && b <= r && r <= a + b
  {
    if a == 0 then b else if b == 0 then a
    else 2 * BitOr(a / 2, b / 2) + (if a % 2 == 1 || b % 2 == 1 then 1 else 0)
  }

  /** `a ^ b` on non-negative integers */
  function BitXor(a: nat, b: nat): (r: nat)
    ensures r <= a + b
  {
    if a == 0 then b else if b == 0 then a
    else 2 * BitXor(a / 2, b / 2) + (if a % 2 != b % 2 then 1 else 0)
  }

  /** `a & ~b == 0`: every bit of `a` is set in `b` */
  predicate BitsWithin(a: nat, b: nat) {
    a == 0 || (a % 2 <= b % 2 && BitsWithin(a / 2, b / 2))
  }

  function Min(a: int, b: int): int { if a <= b then a else b }

  function Max(a: int, b: int): int { if a <= b then b else a }

  function Abs(a: int): nat { if a < 0 then -a else a }

  /** Reads a 32-bit pattern as a two's-complement number. */
  function Signed32(w: word): int {
    if w < 0x8000_0000 then w else w - 0x1_0000_0000
  }

  /** `value & 0xFFFFFFFF` for any integer */
  function ToWord(value: int): word { value % 0x1_0000_0000 }

  /** Truncation to signed 32 bits. */
  function S32(value: int): int { Signed32(ToWord(value)) }

  predicate InS32(value: int) { -0x8000_0000 <= value <= 0x7FFF_FFFF }

  lemma S32Identity(value: int)
    requires InS32(value)
    ensures S32(value) == value
  {
  }

  /** The four bytes of a word, least significant first. */
  function WordBytesLE(n: nat): (bytes: seq<byte>)
    ensures |bytes| == 4
  {
    [n % 0x100, n / 0x100 % 0x100, n / 0x1_0000 % 0x100, n / 0x100_0000 % 0x100]
  }

  function FromLittleEndian(b: seq<byte>): word
    requires |b| == 4
  {
    (b[0] as int) + 0x100 * (b[1] as int) + 0x1_0000 * (b[2] as int) + 0x100_0000 * (b[3] as int)
  }

  lemma WordOfBytes(w: word)
    ensures FromLittleEndian(WordBytesLE(w)) == w
  {
    var second, third, top := w / 0x100, w / 0x1_0000, w / 0x100_0000;
    ShiftTwice(w);
    assert w == w % 0x100 + 0x100 * second && second == second % 0x100 + 0x100 * third
      && third == third % 0x100 + 0x100 * top;
    assert top < 0x100;
  }

  lemma Digit(low: nat, high: nat)
    requires low < 0x100
    ensures (low + 0x100 * high) % 0x100 == low && (low + 0x100 * high) / 0x100 == high
  {
  }

  lemma ShiftTwice(n: nat)
    ensures n / 0x1_0000 == n / 0x100 / 0x100 && n / 0x100_0000 == n / 0x1_0000 / 0x100
  {
  }

  lemma BytesOfWord(b: seq<byte>)
    requires |b| == 4
    ensures WordBytesLE(FromLittleEndian(b)) == b
  {
    var upper: nat := b[2] as int + 0x100 * (b[3] as int);
    var rest: nat := b[1] as int + 0x100 * upper;
    assert FromLittleEndian(b) == b[0] as int + 0x100 * rest;
    Digit(b[0], rest);
    Digit(b[1], upper);
    Digit(b[2], b[3]);
    ShiftTwice(FromLittleEndian(b));
  }

  function Total(counts: seq<nat>): nat {
    if counts == [] then 0 else counts[0] + Total(counts[1..])
  }

  /** `value` is representable in `width` two's-complement bits */
  predicate FitsSigned(value: int, width: nat)
    requires width >= 1
  {
    -(Pow2(width - 1) as int) <= value < Pow2(width - 1)
  }

  /** `s[lo:hi]`: a slice whose bounds are clamped to the sequence */
  function Slice<T>(s: seq<T>, lo: nat, hi: int): (r: seq<T>)
    ensures lo <= hi <= |s| ==> r == s[lo..hi]
  {
    if lo <= hi && lo <= |s| then s[lo..Min(hi, |s|)] else []
  }

  lemma SubSlice<T>(s: seq<T>, a: nat, b: nat, c: nat, d: nat)
    requires c <= d <= b && a + b <= |s|
    ensures s[a..a + b][c..d] == s[a + c..a + d]
  {
    var window := s[a..a + b];
    assert |window[c..d]| == |s[a + c..a + d]|;
    forall k | 0 <= k < d - c
      ensures window[c..d][k] == s[a + c..a + d][k]
    {
      assert window[c + k] == s[a + c + k];
    }
  }
}
