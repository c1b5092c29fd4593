/** Camera ticks to nanoseconds (gvsp_packet_get_timestamp in capture/include/capture/gvsp.h), in 64-bit words. */
module GvspTimestamp {
  import opened Basics
  import opened GvspPacket

  const NANO := 1_000_000_000

  /** The two halves of the leader's timestamp put together: `(high << 32) | low`. */
  function Ticks(p: Packet): Word
    requires |Data(p)| >= 12
  {
    Wrap(BigEndian(Data(p)[4..8]) * 0x1_0000_0000) + BigEndian(Data(p)[8..12]) % 0x1_0000_0000
  }

  /** Whole seconds and the rest are converted separately; every product and sum wraps. */
  function Nanoseconds(t: Word, f: Word): Word {
    if f < 1 then 0
    else
      var s := t / f;
      var ns := Wrap(t % f * NANO) / f;
      Wrap(ns + Wrap(s * NANO))
  }

  /** The exact value, rounded down. */
  function Exact(t: nat, f: nat): nat
    requires f >= 1
  {
    t * 1_000_000_000 / f
  }

  /** No frequency, no time. */
  lemma ZeroFrequency(t: Word)
    ensures Nanoseconds(t, 0) == 0
  { }

  lemma Quotient(n: int, f: int, k: int, m: int)
    requires f >= 1 && n == k * f + m && 0 <= m < f
    ensures n / f == k
  {
    if n / f < k {
      Product(k - n / f - 1, f);
    } else if n / f > k {
      Product(n / f - k - 1, f);
    }
  }

  lemma DivideSum(k: int, f: int, n: int)
    requires f >= 1
    ensures (k * f + n) / f == k + n / f
  {
    assert (k + n / f) * f == k * f + n / f * f;
    Quotient(k * f + n, f, k + n / f, n % f);
  }

  lemma DivideMonotone(a: int, b: int, f: int)
    requires f >= 1 && a <= b
    ensures a / f <= b / f
  {
    if b / f < a / f {
      Product(a / f - b / f - 1, f);
    }
  }

  /** Converting seconds and rest separately loses nothing to rounding. */
  lemma SplitIsExact(t: nat, f: nat)
    requires f >= 1
    ensures Exact(t, f) == t / f * NANO + t % f * NANO / f
  {
    var q, r := t / f, t % f;
    assert t == q * f + r;
    assert t * NANO == (q * NANO) * f + r * NANO;
    DivideSum(q * NANO, f, r * NANO);
  }

  /** The rest in nanoseconds does not wrap, and neither does the result. */
  ghost predicate Representable(t: Word, f: Word)
    requires f >= 1
  {
    t % f * NANO < WORD && Exact(t, f) < WORD
  }

  /** The code on the two products: `x` for the rest, `s` for the seconds. */
  function Combined(x: nat, s: nat, f: Word): Word
    requires f >= 1
  {
    Wrap(Wrap(x) / f + Wrap(s))
  }

  lemma CombinedFits(x: Word, s: nat, f: Word)
    requires f >= 1
    ensures Combined(x, s, f) == s + x / f <==> s + x / f < WORD
  {
    WrapSmall(x);
    Product(x / f, 1);
    hide Wrap;
    WrapIsExactIff(x / f, s);
  }

  lemma CombinedLoses(x: nat, s: nat, f: Word)
    requires f >= 1 && x >= WORD
    ensures Combined(x, s, f) < s + x / f
  {
    hide Wrap;
    LostByWrap(x, f);
    WrapIsBelow(Wrap(x) / f, s);
  }

  lemma CombinedIff(x: nat, s: nat, f: Word)
    requires f >= 1
    ensures Combined(x, s, f) == s + x / f <==> x < WORD && s + x / f < WORD
  {
    hide Combined;
    if x < WORD {
      CombinedFits(x, s, f);
    } else {
      CombinedLoses(x, s, f);
    }
  }

  lemma WrapIsExactIff(a: int, b: int)
    requires 0 <= a && 0 <= b
    ensures Wrap(a + Wrap(b)) == a + b <==> a + b < WORD
  { }

  lemma WrapIsBelow(a: int, b: int)
    requires 0 <= a && 0 <= b
    ensures Wrap(a + Wrap(b)) <= a + b
  { }

  /** The code returns the exact value if and only if the product of the rest and the result fit 64 bits. */
  lemma ExactIff(t: Word, f: Word)
    requires f >= 1
    ensures Nanoseconds(t, f) == Exact(t, f) <==> Representable(t, f)
  {
    hide Exact, Wrap;
    SplitIsExact(t, f);
    Product(t / f, NANO);
    Product(t % f, NANO);
    CombinedIff(t % f * NANO, t / f * NANO, f);
  }

  /** A product that wraps loses at least one whole nanosecond, because the frequency is below the word. */
  lemma LostByWrap(x: int, f: Word)
    requires f >= 1 && x >= WORD
    ensures 0 <= Wrap(x) / f < x / f
  {
    var w := Wrap(x);
    assert w + f <= x;
    DivideMonotone(w + f, x, f);
    DivideSum(1, f, w);
    Product(w / f, 1);
  }

  /** Up to about 18 GHz only the size of the result matters. */
  lemma ExactWhenFrequencyIsLow(t: Word, f: Word)
    requires 1 <= f && (f - 1) * NANO < WORD
    ensures Nanoseconds(t, f) == Exact(t, f) <==> Exact(t, f) < WORD
  {
    assert t % f <= f - 1;
    ExactIff(t, f);
  }

  /** Then later ticks never give an earlier time. */
  lemma Monotone(t: Word, u: Word, f: Word)
    requires 1 <= f && (f - 1) * NANO < WORD
    requires t <= u && Exact(u, f) < WORD
    ensures Nanoseconds(t, f) <= Nanoseconds(u, f)
  {
    DivideMonotone(t * NANO, u * NANO, f);
    ExactWhenFrequencyIsLow(t, f);
    ExactWhenFrequencyIsLow(u, f);
  }

  /** Beyond the range it is not so: the clock starts again from a small value. */
  lemma NotMonotoneBeyond()
    ensures var t := 18_446_744_073; Nanoseconds(t + 1, 1) < Nanoseconds(t, 1)
  { }

  /** The tick count is the eight bytes of the leader as one number. */
  lemma TicksAreEightBytes(p: Packet)
    requires |Data(p)| >= 12
    ensures Ticks(p) == BigEndian(Data(p)[4..12])
  {
    var d := Data(p);
    var high, low := d[4..8], d[8..12];
    BytesRoundTrip(high);
    BytesRoundTrip(low);
    Powers();
    assert d[4..12] == high + low;
    BigEndianConcat(high, low);
  }

  lemma {:induction false} BigEndianConcat(a: seq<Byte>, b: seq<Byte>)
    ensures BigEndian(a + b) == BigEndian(a) * Power256(|b|) + BigEndian(b)
  {
    if b == [] {
      assert a + b == a;
    } else {
      var front := b[..|b| - 1];
      assert (a + b)[..|a + b| - 1] == a + front;
      BigEndianConcat(a, front);
      assert BigEndian(a) * Power256(|front|) * 256 == BigEndian(a) * Power256(|b|);
    }
  }
}
