/**
 Unsigned words in network byte order.
 */
module BigEndianWords {
  import opened Widths
  import opened Digits

  type Bytes = seq<byte>

  function BigEndian(n: nat, width: nat): (b: Bytes)
    ensures |b| == width
  {
    if width == 0 then [] else BigEndian(n / 0x100, width - 1) + [n % 0x100]
  }

  function Value(b: Bytes): (n: nat)
  {
    if b == [] then 0 else Value(b[..|b| - 1]) * 0x100 + b[|b| - 1]
  }

  function Span256(width: nat): (n: nat) { if width == 0 then 1 else 0x100 * Span256(width - 1) }

  lemma Halves(n: nat, s: nat)
    requires n < 0x100 * s
    ensures n / 0x100 < s && n == n / 0x100 * 0x100 + n % 0x100
  {
  }

  lemma {:induction false} BigEndianRoundTrip(n: nat, width: nat)
    requires n < Span256(width)
    ensures Value(BigEndian(n, width)) == n
  {
    if width > 0 {
      Halves(n, Span256(width - 1));
      BigEndianRoundTrip(n / 0x100, width - 1);
      hide Span256, Value;
      ValueAppend(BigEndian(n / 0x100, width - 1), n % 0x100);
    }
  }

  lemma ValueAppend(b: Bytes, last: byte)
    ensures Value(b + [last]) == Value(b) * 0x100 + last
  {
    assert (b + [last])[..|b|] == b;
  }

  lemma {:induction false} ValueBound(b: Bytes)
    ensures Value(b) < Span256(|b|)
  {
    if b != [] {
      ValueBound(b[..|b| - 1]);
    }
  }

  lemma Spans()
    ensures Span256(2) == 0x1_0000 && Span256(4) == 0x1_0000_0000 && Span256(8) == 0x1_0000_0000_0000_0000
  {
  }

  /** The highest digit comes first. */
  lemma {:induction false} BigEndianDigits(n: nat, width: nat, k: nat)
    requires k < width
    ensures BigEndian(n, width)[width - 1 - k] == Digit(n, 0x100, k)
    decreases width
  {
    if k > 0 {
      BigEndianDigits(n / 0x100, width - 1, k - 1);
      DigitOfQuotient(n, 0x100, k);
    }
    hide Pow;
  }
}
