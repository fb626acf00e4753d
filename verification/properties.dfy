/**
 What the CTX codec promises, and where it stops promising: the round trip
 inside the representable range, the aliasing outside it, encode after
 decode on well-formed values, and the exact inverse pair of the byte form.
 */
module CtxProperties {
  import opened Bits
  import I = Instants
  import opened Ctx
  import BigEndian

  /** The instants CTX represents faithfully: [2020-01-01, 2020-01-01 + 2^30 s). */
  predicate InRange(t: I.GoTime)
  {
    0 <= t.unix - Epoch < TWO30
  }

  /** The declared 10-bit fraction mask is never applied, and applying it would change nothing. */
  lemma NanoMaskNeverNeeded(t: I.GoTime)
    ensures BitAnd(t.nsec / NanoDivisor, NanoMask) == FractionField(NewCTX(t))
  {
    var ms := t.nsec / NanoDivisor;
    assert Pow2(10) == NanoMask + 1;
    AndLowMask(ms, 10);
    DivModUnique(ms, NanoMask + 1, 0, ms);
  }

  /**
   Two instants share an encoding exactly when they fall in the same
   millisecond of the second and their Unix seconds differ by a multiple of
   2^30: nothing out of range is rejected, it aliases.
   */
  lemma SameEncodingIff(t: I.GoTime, u: I.GoTime)
    ensures NewCTX(t) == NewCTX(u)
        <==> t.nsec / NanoDivisor == u.nsec / NanoDivisor && (t.unix - u.unix) % TWO30 == 0
  {
    SameRemainderIff(t.unix - Epoch, u.unix - Epoch, TWO30);
    if t.nsec / NanoDivisor == u.nsec / NanoDivisor && (t.unix - u.unix) % TWO30 == 0 {
      FieldsDetermine(NewCTX(t), NewCTX(u));
    }
  }

  /** Decoding recovers the Unix second exactly when the instant is in range. */
  lemma DecodedSecondIff(t: I.GoTime)
    ensures Time(NewCTX(t)).unix == t.unix <==> InRange(t)
  {
    var delta := t.unix - Epoch;
    if InRange(t) {
      DivModUnique(delta, TWO30, 0, delta);
    }
  }

  /**
   Round trip in range: the same second, the nanoseconds truncated to a whole
   millisecond, so the decoded instant is at most the original and less than
   a millisecond before it.
   */
  lemma RoundTripInRange(t: I.GoTime)
    requires InRange(t)
    ensures Time(NewCTX(t)) == I.Instant(t.unix, t.nsec - t.nsec % NanoDivisor)
    ensures 0 <= I.TotalNanos(t) - I.TotalNanos(Time(NewCTX(t))) < NanoDivisor
  {
    DecodedSecondIff(t);
  }

  /** An instant up to 2^30 s before the epoch decodes 2^30 s later than it was. */
  lemma PreEpochAliasesForward(t: I.GoTime)
    requires Epoch - TWO30 <= t.unix < Epoch
    ensures Time(NewCTX(t)).unix == t.unix + TWO30
  {
    var delta := t.unix - Epoch;
    DivModUnique(delta, TWO30, -1, delta + TWO30);
  }

  /** Encoding a decoded value gives it back exactly when it is well formed. */
  lemma EncodeAfterDecodeIff(ct: CTX)
    ensures NewCTX(Time(ct)) == ct <==> WellFormed(ct)
  {
    if WellFormed(ct) {
      var t := Time(ct);
      var s := SecondsField(ct);
      DivModUnique(s, TWO30, 0, s);
      assert (t.unix - Epoch) % TWO30 == s;
      assert t.nsec / NanoDivisor == FractionField(ct);
      FieldsDetermine(NewCTX(t), ct);
    }
  }

  /**
   How far past the epoch a decoded instant can lie: at most 2^30 s for a
   40-bit value (one carried second at most), and 17179869 carried seconds
   more for the largest 64-bit value.
   */
  lemma DecodedRange(ct: CTX)
    ensures Epoch <= Time(ct).unix <= Epoch + (TWO30 - 1) + 17179869
    ensures ct < TWO40 ==> Time(ct).unix <= Epoch + TWO30
    ensures Time(TWO64 - 1).unix == Epoch + (TWO30 - 1) + 17179869
  {
    assert FractionField(ct) < 0x4_0000_0000;
    assert ct < TWO40 ==> FractionField(ct) < 1024;
    assert SecondsField(TWO64 - 1) == TWO30 - 1 && FractionField(TWO64 - 1) == 0x3_FFFF_FFFF;
  }

  /** The epoch with zero nanoseconds is the value 0, and 0 decodes to the epoch. */
  lemma EpochIsZero()
    ensures NewCTX(I.Instant(Epoch, 0)) == 0
    ensures Time(0) == I.Instant(Epoch, 0)
  {
    FieldsDetermine(NewCTX(I.Instant(Epoch, 0)), 0);
  }

  /** Byte i of the serialised form is bits 8*(4-i) .. 8*(4-i)+7 of the value. */
  lemma BytesLayout(ct: CTX)
    ensures Bytes(ct) == [ct / TWO32 % 256, ct / 0x100_0000 % 256, ct / 0x1_0000 % 256, ct / 256 % 256, ct % 256]
  {
    var x := ct / 256;
    BigEndian.DigitsOfFour(x);
    ModMul(ct, 256, 256);
    ModMul(ct, 256, 0x1_0000);
    ModMul(ct, 256, 0x100_0000);
    assert Bytes(ct) == BigEndian.Digits(x, 4) + [ct % 256];
  }

  /** Reading back the serialised form gives the value with bits above 40 dropped. */
  lemma FromBytesOfBytes(ct: CTX)
    ensures FromBytes(Bytes(ct)) == ct % TWO40
  {
    BigEndian.ValueOfDigits(ct, 5);
    BigEndian.Pow256Values();
    assert Bytes(ct)[..5] == Bytes(ct);
  }

  /** Serialising a deserialised value gives back its five bytes. */
  lemma BytesOfFromBytes(b: seq<Uint8>)
    requires |b| >= 5
    ensures Bytes(FromBytes(b)) == b[..5]
  {
    BigEndian.DigitsOfValue(b[..5]);
  }

  /** Every encoded instant survives serialisation bit for bit. */
  lemma SerialisedEncodingRoundTrip(t: I.GoTime)
    ensures FromBytes(Bytes(NewCTX(t))) == NewCTX(t)
  {
    var ct := NewCTX(t);
    FromBytesOfBytes(ct);
    DivModUnique(ct, TWO40, 0, ct);
  }
}
