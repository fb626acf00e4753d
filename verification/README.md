# CTX compact timestamp — a Dafny model

CTX stores a point in time in 40 bits of an unsigned 64-bit integer:

- bits 0–29: seconds since 2020-01-01T00:00:00Z (Unix 1577836800), reduced modulo 2^30;
- bits 30–39: the whole milliseconds of the second, `nanosecond / 1_000_000`, always 0..999.

It has four operations:

- `NewCTX` encodes a `time.Time`.
- `Time` decodes a value back to a `time.Time`.
- `Bytes` writes a value as five big-endian bytes.
- `FromBytes` reads five bytes back.

`ctx.go` and `compact_time.go` contain the same codec, one line apart. It is modelled once, and the table cites whichever file is clearer.

The model follows the code, not its comments:

- The comments promise microsecond precision, 1/2^10 s precision and a ±34 year range. The code divides by 1_000_000, so it stores milliseconds.
- The code reads the seconds field as unsigned. Every decoded instant therefore lies at or after the epoch.
- Instants before the epoch, or 2^30 s or more after it, are not rejected. They alias onto the representable window.

Further facts about the code:

- There is no sign bit. Pre-epoch dates wrap modulo 2^30 (ctx.go:26,32).
- The round-trip error is below one millisecond, because the fraction is truncated to whole milliseconds (ctx.go:29).
- `FromBytes` has no length check. It panics on fewer than five bytes and ignores any bytes after the fifth (ctx.go:52-53).
- `Time` accepts any 64-bit value. The fraction field is every bit from bit 30 up, and `time.Unix` carries each whole thousand of milliseconds into the seconds. That adds one second for 40-bit values with a fraction field of 1000..1023, and up to 17179869 seconds for values of 2^40 and above (ctx.go:38-39).

Modules:

- `Bits` (bits.dfy): Go's unsigned conversions (`uint64(x)`, `uint32(x)`, `byte(x)`) as explicit reductions modulo 2^n. Shifts, and `&`/`|` defined bit by bit. The lemmas prove that a mask is a remainder and that an `or` of disjoint fields is a sum.
- `Instants` (instants.dfy): the `(Unix seconds, nanosecond)` view of `time.Time`, and `time.Unix`'s carrying of nanoseconds outside [0, 10^9).
- `BigEndian` (bigendian.dfy): `binary.BigEndian.PutUint32`/`Uint32`, specified against a reference digit-string meaning (`Digits`/`Value`).
- `Ctx` (ctx.dfy): the constants and the four operations, each written with the source's own operators.
- `CtxProperties` (properties.dfy): the round-trip, aliasing and serialisation properties.
- `Demo` (demo.dfy): the literal instants of the demonstration program. A small proleptic Gregorian conversion turns their dates into Unix seconds.

## Model

| member | source | states |
|---|---|---|
| Bits.AndLowMask | ctx.go:32 | masking with 2^k − 1 (as `& secondMask` does) leaves exactly the remainder modulo 2^k |
| Bits.OrDisjoint | ctx.go:32 | `or`-ing a value below 2^k with a multiple of 2^k (the shifted fraction) is their sum: the fields never overlap |
| Instants.Unix | ctx.go:39 | `time.Unix(sec, nsec)` gives a normalised time with the same total nanoseconds; an in-range `nsec` is kept as is |
| BigEndian.PutUint32 | ctx.go:45 | the four bytes written are the value's base-256 digits, most significant first |
| BigEndian.Uint32 | ctx.go:52 | the word read is the big-endian value of the first four bytes |
| Ctx.NewCTX | ctx.go:24-33 | the result is below 2^40; its low 30 bits are (Unix − epoch) mod 2^30; bits 30–39 are `nanosecond / 1_000_000`, at most 999 |
| Ctx.Time | ctx.go:36-40 | the decoded instant is never before the epoch; its second is epoch + seconds field + fraction / 1000 and its nanosecond (fraction mod 1000)·10^6, so its total nanoseconds are (epoch + seconds field)·10^9 + fraction·10^6; for a fraction field below 1000 it is exactly (epoch + seconds field, fraction·10^6) |
| Ctx.Bytes | ctx.go:43-48 | exactly five bytes: the five low base-256 digits of the value, most significant first |
| Ctx.FromBytes | ctx.go:51-54 | the result is below 2^40 and is the big-endian value of the first five bytes |
| CtxProperties.NanoMaskNeverNeeded | ctx.go:19-32 | the declared 10-bit fraction mask is never applied; applying it would not change the fraction field |
| CtxProperties.SameEncodingIff | ctx.go:26-32 | two instants encode alike iff they have the same millisecond and their Unix seconds differ by a multiple of 2^30 |
| CtxProperties.DecodedSecondIff | ctx.go:24-40 | decode after encode returns the original Unix second iff 0 ≤ Unix − epoch < 2^30 |
| CtxProperties.RoundTripInRange | compact_time.go:25-41 | in range, decode after encode keeps the second and truncates the nanoseconds to a whole millisecond, so it is at most the original and less than 1 ms before it |
| CtxProperties.PreEpochAliasesForward | ctx.go:26-38 | an instant up to 2^30 s before the epoch decodes exactly 2^30 s later |
| CtxProperties.EncodeAfterDecodeIff | ctx.go:24-40 | encoding a decoded value returns it iff the value is below 2^40 with a fraction field of at most 999 |
| CtxProperties.DecodedRange | ctx.go:36-40 | every decoded second lies in [epoch, epoch + 2^30 − 1 + 17179869]; for values below 2^40 it is at most epoch + 2^30; the largest 64-bit value reaches the upper bound |
| CtxProperties.EpochIsZero | ctx.go:17-39 | the epoch with zero nanoseconds encodes to 0, and 0 decodes to exactly the epoch |
| CtxProperties.BytesLayout | compact_time.go:44-49 | byte i of the serialised form is (value >> 8·(4 − i)) mod 256; bits above 40 are dropped |
| CtxProperties.FromBytesOfBytes | ctx.go:43-54 | reading back the serialised form gives the value mod 2^40 |
| CtxProperties.BytesOfFromBytes | compact_time.go:44-55 | serialising what was read from at least five bytes gives back exactly those five bytes |
| CtxProperties.SerialisedEncodingRoundTrip | compact_time.go:25-55 | every encoded instant survives serialisation and deserialisation bit for bit |
| Demo.EpochIsNewYear2020 | ctx.go:17 | the epoch constant is the Unix second of 2020-01-01T00:00:00Z |
| Demo.Sample | compact_time.go:59 | 2025-01-02T00:02:22 at UTC+5 is Unix second 1735758142 with zero nanoseconds |
| Demo.SampleRoundTrip | compact_time.go:59-68 | the sample encodes to 0x969B03E and decodes to the same instant |
| Demo.SampleBytes | compact_time.go:77-78 | the sample value serialises to 00 09 69 B0 3E |
| Demo.SampleBytesReadBack | compact_time.go:77-80 | reading the sample's bytes back gives the identical value |
| Demo.FutureWraps | compact_time.go:71-74 | 2054-12-31T23:59:59.999999999Z is more than 2^30 s after the epoch; its seconds field wraps to delta − 2^30, it encodes to 0xF9C1D5E7FF, and it decodes to a 2020 date with .999 s |
| Demo.ZeroBytes | ctx.go:43-54 | the zero value serialises to five zero bytes, and five zero bytes read back as zero |

## Left out

- Time zones, the monotonic clock and calendar fields of `time.Time`. The codec only uses `Unix()` and `Nanosecond()`, so an instant is the pair (Unix second, nanosecond).
- int64 overflow of `t.Unix() - epoch` at extreme Unix values. The difference is a mathematical integer that `uint64(...)` then reduces modulo 2^64.
- Ctx.FromBytes: a slice shorter than five bytes makes the source panic. The model states this as a precondition rather than an error result.
- The printing `main` of compact_time.go (lines 57-81) and examples/main.go. They are demonstrations built on printing and `time.Now()`. Only their literal instants are kept, in `Demo`.
- ctx_test.go. It expects a 4-byte serialisation (ctx_test.go:59), which contradicts the 5-byte `Bytes` (ctx.go:44). Its tolerances of up to 24 hours (ctx_test.go:33,48) are far looser than the codec's 1 ms. Its tests depend on `time.Now()` and `float64` arithmetic.
- The calendar helper behind the demo dates (`DateUnix` in `Demo`) models `time.Date` only for in-range fields. It does not normalise months, days or clock fields that are out of range.
- ctx.go and compact_time.go declare the same names in one package. That is a build problem, not behaviour, and the codec is modelled once.
