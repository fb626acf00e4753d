/**
 The CTX compact timestamp: one unsigned 64-bit integer of which 40 bits are
 used. Bits 0-29 hold the seconds since 2020-01-01T00:00:00Z reduced modulo
 2^30; bits 30-39 hold the whole milliseconds of the second (0..999).

 The operations follow the code: `NewCTX` wraps the seconds delta into 30
 bits (so pre-epoch and far-future instants alias), stores milliseconds rather
 than the microseconds or 1/1024 s its comments describe, and `Time` reads the
 seconds field as unsigned, so no decoded instant lies before 2020-01-01. The
 fraction field is every bit from 30 up, so `Time` carries
 FractionField / 1000 whole seconds into the result: none for well-formed
 values, one for 40-bit values with a fraction field of 1000..1023, and up to
 17179869 for values of 2^40 and above.
 */
module Ctx {
  import opened Bits
  import I = Instants
  import BigEndian

  type CTX = Uint64

  /** 2020-01-01T00:00:00Z as Unix seconds. */
  const Epoch: int := 1577836800
  /** 30 bits for seconds. */
  const SecondMask: nat := 0x3FFF_FFFF
  /** 10 bits for the fraction; declared by the source but never applied. */
  const NanoMask: nat := 0x3FF
  /** Nanoseconds per stored fraction unit: one millisecond. */
  const NanoDivisor: nat := 1_000_000

  /** Bits 0-29: seconds since the epoch, modulo 2^30. */
  function SecondsField(ct: CTX): nat
  {
    ct % TWO30
  }

  /** Bits 30 and up: the fraction of the second, in milliseconds. */
  function FractionField(ct: CTX): nat
  {
    ct / TWO30
  }

  /** The values `NewCTX` can produce: 40 bits, fraction field a millisecond. */
  predicate WellFormed(ct: CTX)
  {
    ct < TWO40 && FractionField(ct) < 1000
  }

  /** Every value is its two fields put back together. */
  lemma FieldsCompose(ct: CTX)
    ensures ct == SecondsField(ct) + FractionField(ct) * TWO30
  {
  }

  /** Two values with equal fields are equal. */
  lemma FieldsDetermine(a: CTX, b: CTX)
    requires SecondsField(a) == SecondsField(b) && FractionField(a) == FractionField(b)
    ensures a == b
  {
    FieldsCompose(a);
    FieldsCompose(b);
  }

  /** The packing expression of `NewCTX`, read arithmetically. */
  lemma PackIsSum(seconds: nat, ms: nat)
    requires ms < 1000
    ensures BitOr(BitAnd(seconds, SecondMask), ShiftLeft(ms, 30, 64)) == seconds % TWO30 + ms * TWO30
  {
    Pow2Values();
    AndLowMask(seconds, 30);
    ShiftLeftFits(ms, 30, 64);
    OrDisjoint(seconds % TWO30, ms, 30);
  }

  /** The packed sum has the wrapped delta and the milliseconds as its fields. */
  lemma FieldsOfPacked(delta: int, ms: nat)
    requires ms < 1000
    ensures delta % TWO64 % TWO30 + ms * TWO30 < TWO40
    ensures SecondsField(delta % TWO64 % TWO30 + ms * TWO30) == delta % TWO30
    ensures FractionField(delta % TWO64 % TWO30 + ms * TWO30) == ms
  {
    ModOfMod(delta, TWO30, 0x4_0000_0000);
    var s := delta % TWO30;
    DivModUnique(s + ms * TWO30, TWO30, ms, s);
  }

  /** Encoding: `NewCTX(t)`. */
  function NewCTX(t: I.GoTime): (ct: CTX)
    ensures ct < TWO40
    ensures SecondsField(ct) == (t.unix - Epoch) % TWO30
    ensures FractionField(ct) == t.nsec / NanoDivisor <= 999
  {
    var seconds := ToUint64(t.unix - Epoch);
    DivModUnique(t.nsec, TWO64, 0, t.nsec);
    var nanos := ToUint64(t.nsec) / NanoDivisor;
    assert nanos == t.nsec / NanoDivisor < 1000;
    PackIsSum(seconds, nanos);
    FieldsOfPacked(t.unix - Epoch, nanos);
    BitOr(BitAnd(seconds, SecondMask), ShiftLeft(nanos, 30, 64))
  }

  /** A normalised time equal to sec seconds plus f milliseconds carries f / 1000 seconds. */
  lemma CarriedSeconds(t: I.GoTime, sec: int, f: nat)
    requires I.TotalNanos(t) == sec * I.NanosPerSecond + f * NanoDivisor
    ensures t.unix == sec + f / 1000 && t.nsec == f % 1000 * NanoDivisor
  {
    var q, r := f / 1000, f % 1000;
    assert f * NanoDivisor == q * I.NanosPerSecond + r * NanoDivisor;
    assert I.TotalNanos(t) == (sec + q) * I.NanosPerSecond + r * NanoDivisor;
    DivModUnique(I.TotalNanos(t), I.NanosPerSecond, t.unix, t.nsec);
    DivModUnique(I.TotalNanos(t), I.NanosPerSecond, sec + q, r * NanoDivisor);
  }

  /**
   Decoding: `ct.Time()`. The seconds field is read as unsigned, and the
   fraction field, scaled to nanoseconds, goes through `time.Unix`, which
   carries every whole thousand of milliseconds into the seconds.
   */
  function Time(ct: CTX): (t: I.GoTime)
    ensures t.unix >= Epoch
    ensures t.unix == Epoch + SecondsField(ct) + FractionField(ct) / 1000
    ensures t.nsec == FractionField(ct) % 1000 * NanoDivisor
    ensures I.TotalNanos(t) == (Epoch + SecondsField(ct)) * I.NanosPerSecond + FractionField(ct) * NanoDivisor
    ensures FractionField(ct) < 1000 ==> t == I.Instant(Epoch + SecondsField(ct), FractionField(ct) * NanoDivisor)
  {
    Pow2Values();
    AndLowMask(ct, 30);
    var seconds := BitAnd(ct, SecondMask) + Epoch;
    var frac := ShiftRight(ct, 30);
    assert frac * NanoDivisor < TWO64 by {
      assert frac < 0x4_0000_0000;
      assert frac * NanoDivisor <= 0x4_0000_0000 * NanoDivisor;
    }
    var nanos := ToUint64(frac * NanoDivisor);
    DivModUnique(frac * NanoDivisor, TWO64, 0, frac * NanoDivisor);
    var t := I.Unix(seconds, nanos);
    CarriedSeconds(t, seconds, frac);
    t
  }

  /** Serialisation: `ct.Bytes()`, five bytes in big-endian order. */
  function Bytes(ct: CTX): (b: seq<Uint8>)
    ensures |b| == 5
    ensures b == BigEndian.Digits(ct, 5)
  {
    Pow2Values();
    BigEndian.Pow256Values();
    var high := ToUint32(ShiftRight(ct, 8));
    BigEndian.DigitsOfLow(ct / 256, 4, 4);
    BigEndian.PutUint32(high) + [ToUint8(ct)]
  }

  /** Deserialisation: `FromBytes(b)`; bytes after the fifth are ignored. */
  function FromBytes(b: seq<Uint8>): (ct: CTX)
    requires |b| >= 5
    ensures ct < TWO40
    ensures ct == BigEndian.Value(b[..5])
  {
    Pow2Values();
    var high := BigEndian.Uint32(b[0..4]);
    assert b[0..4][..4] == b[..5][..4];
    ShiftLeftFits(high, 8, 64);
    var shifted := ShiftLeft(high, 8, 64);
    OrDisjoint(b[4], high, 8);
    OrCommutes(shifted, b[4]);
    BigEndian.ValueBound(b[..5]);
    BigEndian.Pow256Values();
    BitOr(shifted, b[4])
  }
}
