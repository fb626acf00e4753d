/**
 The concrete instants of the demonstration program, checked against the
 model. A proleptic Gregorian calendar conversion turns the literal dates into
 Unix seconds so that the instants are stated as dates, not as bare numbers.
 */
module Demo {
  import opened Bits
  import I = Instants
  import opened Ctx
  import CtxProperties
  import BigEndian

  /** Days from 1970-01-01 to the given civil date (proleptic Gregorian). */
  function DaysFromCivil(year: int, month: int, day: int): int
    requires 1 <= month <= 12 && 1 <= day <= 31
  {
    var y := if month <= 2 then year - 1 else year;
    var era := y / 400;
    var yoe := y - era * 400;
    var mp := if month > 2 then month - 3 else month + 9;
    var doy := (153 * mp + 2) / 5 + day - 1;
    var doe := yoe * 365 + yoe / 4 - yoe / 100 + doy;
    era * 146097 + doe - 719468
  }

  /** Unix seconds of a wall-clock reading in a zone `offset` seconds east of UTC. */
  function DateUnix(year: int, month: int, day: int, hour: int, min: int, sec: int, offset: int): int
    requires 1 <= month <= 12 && 1 <= day <= 31
  {
    DaysFromCivil(year, month, day) * 86400 + hour * 3600 + min * 60 + sec - offset
  }

  /** The epoch constant is 2020-01-01T00:00:00Z. */
  lemma EpochIsNewYear2020()
    ensures Epoch == DateUnix(2020, 1, 1, 0, 0, 0, 0)
  {
  }

  /** 2025-01-02T00:02:22 in UTC+5; the zone only shifts the Unix second. */
  function Sample(): (t: I.GoTime)
    ensures t.unix == 1735758142 && t.nsec == 0
  {
    I.Instant(DateUnix(2025, 1, 2, 0, 2, 22, 5 * 60 * 60), 0)
  }

  /** The value the demonstration prints for the sample, 0x969B03E. */
  const SampleCTX: CTX := 0x969_B03E

  /** The sample encodes to 0x969B03E and decodes to itself. */
  lemma SampleRoundTrip()
    ensures NewCTX(Sample()) == SampleCTX == 157921342
    ensures Time(NewCTX(Sample())) == Sample()
  {
    var t := Sample();
    DivModUnique(t.unix - Epoch, TWO30, 0, 157921342);
    FieldsDetermine(NewCTX(t), 157921342);
  }

  /** The sample's five bytes. */
  lemma SampleBytes()
    ensures Bytes(SampleCTX) == [0x00, 0x09, 0x69, 0xB0, 0x3E]
  {
    assert Bytes(SampleCTX) == BigEndian.Digits(SampleCTX, 5);
  }

  /** Reading the sample's bytes back gives the identical value. */
  lemma SampleBytesReadBack()
    ensures FromBytes(Bytes(NewCTX(Sample()))) == NewCTX(Sample())
  {
    CtxProperties.SerialisedEncodingRoundTrip(Sample());
  }

  /** 2054-12-31T23:59:59.999999999Z, more than 2^30 s after the epoch. */
  function Future(): (t: I.GoTime)
    ensures t.unix == 2682374399 && t.nsec == 999_999_999
  {
    I.Instant(DateUnix(2054, 12, 31, 23, 59, 59, 0), 999_999_999)
  }

  /**
   The future date's seconds field wraps to delta - 2^30, so decoding yields
   a date in 2020 (before 2021-01-01) with .999 s, not 2054.
   */
  lemma FutureWraps()
    ensures Future().unix - Epoch > TWO30
    ensures SecondsField(NewCTX(Future())) == Future().unix - Epoch - TWO30 == 30795775
    ensures NewCTX(Future()) == 0xF9_C1D5_E7FF
    ensures Time(NewCTX(Future())) == I.Instant(Epoch + 30795775, 999_000_000)
    ensures Epoch <= Time(NewCTX(Future())).unix < DateUnix(2021, 1, 1, 0, 0, 0, 0)
  {
    var t := Future();
    DivModUnique(t.unix - Epoch, TWO30, 1, 30795775);
    FieldsDetermine(NewCTX(t), 0xF9_C1D5_E7FF);
  }

  /** The zero value serialises to five zero bytes and reads back as zero. */
  lemma ZeroBytes()
    ensures Bytes(0) == [0, 0, 0, 0, 0]
    ensures FromBytes([0, 0, 0, 0, 0]) == 0
  {
    CtxProperties.BytesLayout(0);
    CtxProperties.FromBytesOfBytes(0);
  }
}
