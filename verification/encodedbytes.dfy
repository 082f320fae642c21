/** The byte-level helpers of encodedbytes/util.go: integers packed with a
    chosen number of bits per byte, the table of text encodings, and the
    search for the end of a null-terminated string. */
module EncodedBytes {
  import opened Wrappers
  import opened Bits

  const BytesPerInt: nat := 4
  const SynchByteLength: nat := 7
  const NormByteLength: nat := 8
  const UTF16NullLength: nat := 2

  /** The text-encoding byte of an ID3v2.4 text frame indexes this table
      (ID3v2.4.0 main structure, section 4). */
  const EncodingMap: seq<string> := ["ISO-8859-1", "UTF-16", "UTF-16BE", "UTF-8"]

  datatype IntError =
    | InvalidLength   // more than BytesPerInt bytes
    | ExceedMaxBit    // a byte does not fit in `base` bits

  /** A Go runtime panic, modelled as a value. */
  datatype RuntimeError = IndexOutOfRange(index: int)

  // =====================================================================
  // Byte integers

  /** The number buf denotes when read most significant byte first with
      `base` bits per byte: byte i weighs 2^(base * (|buf| - 1 - i)). */
  function BigEndianValue(buf: seq<byte>, base: nat): nat
  {
    if |buf| == 0 then 0
    else buf[0] * Pow2(base * (|buf| - 1)) + BigEndianValue(buf[1..], base)
  }

  /** Every byte of buf is below 2^base. */
  predicate FitsBase(buf: seq<byte>, base: nat)
  {
    forall k :: 0 <= k < |buf| ==> buf[k] < Pow2(base)
  }

  /** The loop of ByteInt: the bytes of buf are checked in order, and each
      one that passes is or-ed into the accumulator shifted left by base. */
  function Accumulate(buf: seq<byte>, base: nat): (r: Result<uint32, IntError>)
    ensures r.Success? <==> FitsBase(buf, base)
    ensures r.Failure? ==> r.error == ExceedMaxBit
    ensures r.Success? ==> r.value == BigEndianValue(buf, base) % Two32
  {
    if |buf| == 0 then Success(0)
    else
      var prefix, b := buf[..|buf| - 1], buf[|buf| - 1];
      assert buf == prefix + [b];
      match Accumulate(prefix, base)
      case Failure(e) => Failure(e)
      case Success(i) =>
        if base < NormByteLength && b >= Pow2(base) then Failure(ExceedMaxBit)
        else
          GuardPassed(b, base);
          BigEndianSnoc(prefix, b, base);
          AccumulateStep(BigEndianValue(prefix, base), base, b);
          Success(Or(Shl32(i, base), b))
  }

  function ByteInt(buf: seq<byte>, base: nat): (r: Result<uint32, IntError>)
    ensures |buf| > BytesPerInt ==> r == Failure(InvalidLength)
    ensures |buf| <= BytesPerInt ==> (r.Success? <==> FitsBase(buf, base))
    ensures |buf| <= BytesPerInt && r.Failure? ==> r.error == ExceedMaxBit
    ensures r.Success? ==> r.value == BigEndianValue(buf, base) % Two32
    ensures r.Success? && base <= NormByteLength ==>
              r.value == BigEndianValue(buf, base) < Pow2(base * |buf|)
  {
    if |buf| > BytesPerInt then Failure(InvalidLength)
    else
      AccumulateExact(buf, base);
      Accumulate(buf, base)
  }

  /** Up to four bytes of at most eight bits never overflow the accumulator. */
  lemma AccumulateExact(buf: seq<byte>, base: nat)
    requires |buf| <= BytesPerInt
    ensures Accumulate(buf, base).Success? && base <= NormByteLength ==>
              Accumulate(buf, base).value == BigEndianValue(buf, base) < Pow2(base * |buf|)
  {
    var r := Accumulate(buf, base);
    if r.Success? && base <= NormByteLength {
      NoOverflow(buf, base);
      DivModUnique(BigEndianValue(buf, base), Two32, 0, BigEndianValue(buf, base));
    }
  }

  function SynchInt(buf: seq<byte>): (r: Result<uint32, IntError>)
    ensures r.Success? <==> |buf| <= BytesPerInt && forall k :: 0 <= k < |buf| ==> buf[k] < 0x80
    ensures r.Success? ==> r.value == BigEndianValue(buf, SynchByteLength) < 0x1000_0000
  {
    Pow2Values();
    var r := ByteInt(buf, SynchByteLength);
    if r.Success? then
      Pow2Le(SynchByteLength * |buf|, 28);
      r
    else r
  }

  function NormInt(buf: seq<byte>): (r: Result<uint32, IntError>)
    ensures r.Success? <==> |buf| <= BytesPerInt
    ensures r.Success? ==> r.value == BigEndianValue(buf, NormByteLength)
  {
    var r := ByteInt(buf, NormByteLength);
    if |buf| <= BytesPerInt then
      assert FitsBase(buf, NormByteLength) by {
        forall k | 0 <= k < |buf| { WideBaseFits(buf[k], NormByteLength); }
      }
      r
    else r
  }

  /** Go's `uint32(1<<base - 1)`: the shift loses bits past bit 31 and the
      subtraction wraps around. */
  function Mask(base: nat): uint32
  {
    (Pow2(base) - 1) % Two32
  }

  /** The loop of IntBytes: `count` bytes filled from the last, each taking
      the masked low bits of n before n is shifted right by base. */
  function Fill(n: uint32, base: nat, count: nat): (r: seq<byte>)
    ensures |r| == count
  {
    if count == 0 then []
    else Fill(Shr32(n, base), base, count - 1) + [ToByte(And(n, Mask(base)))]
  }

  /** Byte j is the low eight bits of digit 3 - j of n in radix 2^base;
      for base <= 8 that is the whole digit. */
  function IntBytes(n: uint32, base: nat): (r: seq<byte>)
    ensures |r| == BytesPerInt
    ensures forall j :: 0 <= j < BytesPerInt ==> r[j] == Digit(n, base, BytesPerInt - 1 - j) % 0x100
    ensures base <= NormByteLength ==>
              forall j :: 0 <= j < BytesPerInt ==> r[j] == Digit(n, base, BytesPerInt - 1 - j)
    ensures base <= NormByteLength ==> FitsBase(r, base)
  {
    FillDigits(n, base, BytesPerInt);
    if base <= NormByteLength then
      FillNarrowDigits(n, base, BytesPerInt);
      Fill(n, base, BytesPerInt)
    else
      Fill(n, base, BytesPerInt)
  }

  function SynchBytes(n: uint32): (r: seq<byte>)
    ensures |r| == BytesPerInt
    ensures forall j :: 0 <= j < |r| ==> r[j] < 0x80
    ensures SynchInt(r) == Success(n % 0x1000_0000)
  {
    Pow2Values();
    IntBytesRoundTrip(n, SynchByteLength);
    IntBytes(n, SynchByteLength)
  }

  function NormBytes(n: uint32): (r: seq<byte>)
    ensures |r| == BytesPerInt
    ensures NormInt(r) == Success(n)
  {
    NormBytesRoundTrip(n);
    IntBytes(n, NormByteLength)
  }

  // ---------------------------------------------------------------------
  // Lemmas about byte integers

  /** With eight or more bits per byte every byte fits. */
  lemma WideBaseFits(b: byte, base: nat)
    requires base >= NormByteLength
    ensures b < Pow2(base)
  {
    Pow2Le(8, base);
    Pow2Values();
  }

  /** A byte that passed ByteInt's guard fits in base bits. */
  lemma GuardPassed(b: byte, base: nat)
    requires !(base < NormByteLength && b >= Pow2(base))
    ensures b < Pow2(base)
  {
    if base >= NormByteLength {
      WideBaseFits(b, base);
    }
  }

  /** Appending a byte shifts the value up by one digit. */
  lemma {:induction false} BigEndianSnoc(s: seq<byte>, b: byte, base: nat)
    ensures BigEndianValue(s + [b], base) == BigEndianValue(s, base) * Pow2(base) + b
  {
    var t := s + [b];
    if |s| == 0 {
      assert t == [b];
      assert BigEndianValue(t, base) == b * Pow2(0) + BigEndianValue([], base);
    } else {
      assert t[1..] == s[1..] + [b];
      BigEndianSnoc(s[1..], b, base);
      var w, p := Pow2(base * (|s| - 1)), Pow2(base);
      var v := BigEndianValue(s[1..], base);
      MulSucc(base, |s| - 1);
      Pow2Add(base * (|s| - 1), base);
      assert BigEndianValue(t, base) == s[0] * (w * p) + (v * p + b);
      ShiftDigit(s[0], w, p, v);
    }
  }

  /** A buffer whose bytes fit in base bits denotes less than 2^(base * |s|). */
  lemma {:induction false} BigEndianBound(s: seq<byte>, base: nat)
    requires FitsBase(s, base)
    ensures BigEndianValue(s, base) < Pow2(base * |s|)
  {
    if |s| > 0 {
      var w, p := Pow2(base * (|s| - 1)), Pow2(base);
      BigEndianBound(s[1..], base);
      MulSucc(base, |s| - 1);
      Pow2Add(base * (|s| - 1), base);
      DigitBound(s[0], p, w, BigEndianValue(s[1..], base));
    }
  }

  /** At most eight bits per byte and at most four bytes fit in 32 bits. */
  lemma WidthFits(base: nat, len: nat)
    requires base <= NormByteLength && len <= BytesPerInt
    ensures base * len <= 32 && Pow2(base * len) <= Two32
  {
    assert base * len <= 8 * len;
    Pow2Le(base * len, 32);
    Pow2Values();
  }

  lemma NoOverflow(buf: seq<byte>, base: nat)
    requires base <= NormByteLength && |buf| <= BytesPerInt && FitsBase(buf, base)
    ensures BigEndianValue(buf, base) < Pow2(base * |buf|) <= Two32
  {
    BigEndianBound(buf, base);
    WidthFits(base, |buf|);
  }

  /** One step of the ByteInt loop: or-ing byte b into the shifted 32-bit
      accumulator is adding b to the shifted value, modulo 2^32. */
  lemma AccumulateStep(x: nat, base: nat, b: byte)
    requires b < Pow2(base)
    ensures Or(Shl32(x % Two32, base), b) == (x * Pow2(base) + b) % Two32
  {
    if base < 32 {
      NarrowShiftStep(x, base, b);
    } else {
      WideShiftStep(x, base, b);
    }
  }

  /** For a shift below 32 the accumulator keeps its low 32 - base bits. */
  lemma NarrowShiftStep(x: nat, base: nat, b: byte)
    requires base < 32 && b < Pow2(base)
    ensures Or(Shl32(x % Two32, base), b) == (x * Pow2(base) + b) % Two32
  {
    var p, q := Pow2(base), Pow2(32 - base);
    NarrowSplit(base);
    NarrowShift(x, base);
    DivBounds(x, q);
    OrDisjoint(x % q, base, b);
    NarrowAdd(x, base, b);
  }

  lemma NarrowSplit(base: nat)
    requires base < 32
    ensures Pow2(base) * Pow2(32 - base) == Two32
  {
    Pow2Add(base, 32 - base);
    Pow2Values();
  }

  lemma NarrowShift(x: nat, base: nat)
    requires base < 32
    ensures Shl32(x % Two32, base) == (x % Pow2(32 - base)) * Pow2(base)
  {
    var p, q := Pow2(base), Pow2(32 - base);
    var y := x % Two32;
    NarrowSplit(base);
    DivBounds(x, Two32);
    DivModUnique(y * p, p, y, 0);
    ModMul(y * p, p, q);
    DivOfModMul(x, q, p);
  }

  lemma NarrowAdd(x: nat, base: nat, b: byte)
    requires base < 32 && b < Pow2(base)
    ensures (x * Pow2(base) + b) % Two32 == (x % Pow2(32 - base)) * Pow2(base) + b
  {
    var p, q := Pow2(base), Pow2(32 - base);
    NarrowSplit(base);
    DivModUnique(x * p + b, p, x, b);
    ModMul(x * p + b, p, q);
  }

  /** A shift by 32 or more clears the accumulator, leaving only b. */
  lemma WideShiftStep(x: nat, base: nat, b: byte)
    requires base >= 32
    ensures Or(Shl32(x % Two32, base), b) == (x * Pow2(base) + b) % Two32
  {
    var p, r := Pow2(base), Pow2(base - 32);
    var y := x % Two32;
    assert p == Two32 * r by {
      Pow2Add(32, base - 32);
      Pow2Values();
    }
    assert Shl32(y, base) == 0 by {
      assert y * p == (y * r) * Two32;
      DivModUnique(y * p, Two32, y * r, 0);
    }
    assert x * p + b == (x * r) * Two32 + b;
    DivModUnique(x * p + b, Two32, x * r, b);
  }

  /** For every base the mask keeps n's low digit: below 32 it is base
      one-bits, and from 32 on it wraps to all 32 bits, which keep n. */
  lemma MaskedDigit(n: uint32, base: nat)
    ensures And(n, Mask(base)) == n % Pow2(base)
  {
    Pow2Values();
    if base < 32 {
      Pow2Le(base, 32);
      assert Mask(base) == Pow2(base) - 1;
      AndLowMask(n, base);
    } else {
      var r := Pow2(base - 32);
      Pow2Add(32, base - 32);
      assert Pow2(base) - 1 == (r - 1) * Two32 + (Two32 - 1);
      DivModUnique(Pow2(base) - 1, Two32, r - 1, Two32 - 1);
      AndLowMask(n, 32);
      DivModUnique(n, Two32, 0, n);
      Pow2Le(32, base);
      DivModUnique(n, Pow2(base), 0, n);
    }
  }

  /** With at most eight bits per base, the masked byte is n's low digit. */
  lemma LowDigit(n: uint32, base: nat)
    requires base <= NormByteLength
    ensures ToByte(And(n, Mask(base))) == n % Pow2(base)
    ensures Shr32(n, base) == n / Pow2(base)
  {
    MaskedDigit(n, base);
    DivBounds(n, Pow2(base));
    assert Pow2(base) <= 0x100 by {
      Pow2Le(base, 8);
      Pow2Values();
    }
  }

  /** Byte j of the loop's output is the low eight bits of digit
      count - 1 - j of n, whatever the base. */
  lemma {:induction false} FillDigits(n: uint32, base: nat, count: nat)
    ensures forall j :: 0 <= j < count ==> Fill(n, base, count)[j] == Digit(n, base, count - 1 - j) % 0x100
  {
    if count > 0 {
      var p := Pow2(base);
      var r := Fill(n, base, count);
      MaskedDigit(n, base);
      DivBounds(n, p);
      assert r == Fill(n / p, base, count - 1) + [(n % p) % 0x100];
      FillDigits(n / p, base, count - 1);
      forall j | 0 <= j < count
        ensures r[j] == Digit(n, base, count - 1 - j) % 0x100
      {
        if j == count - 1 {
          assert base * 0 == 0;
          assert Pow2(0) == 1;
          DivModUnique(n, 1, n, 0);
        } else {
          assert r[j] == Fill(n / p, base, count - 1)[j];
          DigitOfShifted(n, base, count - 2 - j);
        }
      }
    }
  }

  /** With at most eight bits per base every digit fits a byte, so the
      loop's bytes are the digits themselves. */
  lemma FillNarrowDigits(n: uint32, base: nat, count: nat)
    requires base <= NormByteLength
    ensures forall j :: 0 <= j < count ==> Fill(n, base, count)[j] == Digit(n, base, count - 1 - j)
    ensures FitsBase(Fill(n, base, count), base)
  {
    var r := Fill(n, base, count);
    FillDigits(n, base, count);
    assert Pow2(base) <= 0x100 by {
      Pow2Le(base, 8);
      Pow2Values();
    }
    forall j | 0 <= j < count
      ensures r[j] == Digit(n, base, count - 1 - j) && r[j] < Pow2(base)
    {
      DigitBelow(n, base, count - 1 - j);
    }
  }

  /** The filled bytes read back as n's low base * count bits. */
  lemma {:induction false} FillValue(n: uint32, base: nat, count: nat)
    requires base <= NormByteLength
    ensures FitsBase(Fill(n, base, count), base)
    ensures BigEndianValue(Fill(n, base, count), base) == n % Pow2(base * count)
  {
    var p := Pow2(base);
    if count == 0 {
      assert base * 0 == 0;
    } else {
      var a := Pow2(base * (count - 1));
      LowDigit(n, base);
      DivBounds(n, p);
      var q, d := n / p, n % p;
      var rest := Fill(q, base, count - 1);
      assert Fill(n, base, count) == rest + [d];
      FillValue(q, base, count - 1);
      assert BigEndianValue(rest + [d], base) == (q % a) * p + d by {
        BigEndianSnoc(rest, d, base);
      }
      SplitLowDigit(n, base, count);
    }
  }

  /** n's low base * count bits are its low digit below the next
      base * (count - 1) bits. */
  lemma SplitLowDigit(n: nat, base: nat, count: nat)
    requires count > 0
    ensures n % Pow2(base * count)
            == ((n / Pow2(base)) % Pow2(base * (count - 1))) * Pow2(base) + n % Pow2(base)
  {
    assert base + base * (count - 1) == base * count;
    Pow2Add(base, base * (count - 1));
    ModMul(n, Pow2(base), Pow2(base * (count - 1)));
  }

  /** Filling a value read from bytes that fit gives those bytes back. */
  lemma {:induction false} FillOfValue(s: seq<byte>, base: nat)
    requires base <= NormByteLength && |s| <= BytesPerInt && FitsBase(s, base)
    ensures BigEndianValue(s, base) < Two32
    ensures Fill(BigEndianValue(s, base), base, |s|) == s
  {
    NoOverflow(s, base);
    if |s| > 0 {
      var prefix, b := s[..|s| - 1], s[|s| - 1];
      assert s == prefix + [b];
      var v := BigEndianValue(s, base);
      BigEndianSnoc(prefix, b, base);
      FillOfValue(prefix, base);
      DivModUnique(v, Pow2(base), BigEndianValue(prefix, base), b);
      LowDigit(v, base);
    }
  }

  /** Two values that agree in their low base * count bits fill the same bytes. */
  lemma {:induction false} FillLowBitsOnly(n: uint32, m: uint32, base: nat, count: nat)
    requires base <= NormByteLength
    requires n % Pow2(base * count) == m % Pow2(base * count)
    ensures Fill(n, base, count) == Fill(m, base, count)
  {
    if count > 0 {
      var p, a := Pow2(base), Pow2(base * (count - 1));
      assert base + base * (count - 1) == base * count;
      Pow2Add(base, base * (count - 1));
      DivOfModMul(n, p, a);
      DivOfModMul(m, p, a);
      LowDigit(n, base);
      LowDigit(m, base);
      FillLowBitsOnly(n / p, m / p, base, count - 1);
    }
  }

  /** Decoding the encoded bytes gives back n's low 4 * base bits; with
      base 8 that is every uint32, with base 7 every n below 2^28. */
  lemma IntBytesRoundTrip(n: uint32, base: nat)
    requires base <= NormByteLength
    ensures ByteInt(IntBytes(n, base), base) == Success(n % Pow2(base * BytesPerInt))
  {
    FillValue(n, base, BytesPerInt);
    WidthFits(base, BytesPerInt);
  }

  /** Encoding the value of four bytes that fit gives the same bytes. */
  lemma ByteIntThenIntBytes(buf: seq<byte>, base: nat)
    requires base <= NormByteLength && |buf| == BytesPerInt && FitsBase(buf, base)
    ensures ByteInt(buf, base).Success?
    ensures IntBytes(ByteInt(buf, base).value, base) == buf
  {
    FillOfValue(buf, base);
  }

  lemma NormBytesRoundTrip(n: uint32)
    ensures ByteInt(IntBytes(n, NormByteLength), NormByteLength) == Success(n)
  {
    IntBytesRoundTrip(n, NormByteLength);
    var m := Pow2(NormByteLength * BytesPerInt);
    assert m == Two32 by {
      Pow2Values();
    }
    DivModUnique(n, m, 0, n);
  }

  /** IntBytes keeps only the low 4 * base bits of n. */
  lemma IntBytesLowBitsOnly(n: uint32, m: uint32, base: nat)
    requires base <= NormByteLength
    requires n % Pow2(base * BytesPerInt) == m % Pow2(base * BytesPerInt)
    ensures IntBytes(n, base) == IntBytes(m, base)
  {
    FillLowBitsOnly(n, m, base, BytesPerInt);
  }

  lemma SynchBytesLowBits(n: uint32)
    ensures SynchBytes(n) == SynchBytes(n % 0x1000_0000)
  {
    Pow2Values();
    DivOfModMul(n, 0x1000_0000, 0x10);
    IntBytesLowBitsOnly(n, n % 0x1000_0000, SynchByteLength);
  }

  // =====================================================================
  // Encoding table

  /** EncodingForIndex exactly as the source writes it: the guard lets
      index 4 through, and indexing the four-entry table with it panics.
      Go's `int(b) < 0` test can never hold for a byte and is omitted. */
  function EncodingForIndexAsWritten(b: byte): (r: Result<string, RuntimeError>)
    ensures r.Failure? <==> b == |EncodingMap|
    ensures r.Success? ==> r.value in EncodingMap
  {
    var encodingIndex := if b > |EncodingMap| then 0 else b;
    if encodingIndex < |EncodingMap| then Success(EncodingMap[encodingIndex])
    else Failure(IndexOutOfRange(encodingIndex))
  }

  /** EncodingForIndex with the guard `>=`: every byte names a table entry,
      out-of-range bytes falling back to entry 0. */
  function EncodingForIndex(b: byte): (name: string)
    ensures name in EncodingMap
    ensures b < |EncodingMap| ==> name == EncodingMap[b]
    ensures b >= |EncodingMap| ==> name == EncodingMap[0]
  {
    var encodingIndex := if b >= |EncodingMap| then 0 else b;
    EncodingMap[encodingIndex]
  }

  /** The guard lets exactly the index 4 through to the panic. */
  lemma EncodingForIndexAsWrittenFailsAtFour()
    ensures EncodingForIndexAsWritten(4) == Failure(IndexOutOfRange(4))
    ensures forall b: byte :: b != 4 ==> EncodingForIndexAsWritten(b) == Success(EncodingForIndex(b))
  {
  }

  /** The scan of IndexForEncoding from table position i on. */
  function IndexFrom(e: string, i: nat): (r: byte)
    requires i <= |EncodingMap|
    decreases |EncodingMap| - i
    ensures r < |EncodingMap|
    ensures (exists j :: i <= j < |EncodingMap| && EncodingMap[j] == e) ==>
              i <= r && EncodingMap[r] == e && forall j :: i <= j < r ==> EncodingMap[j] != e
    ensures (forall j :: i <= j < |EncodingMap| ==> EncodingMap[j] != e) ==> r == 0
  {
    if i == |EncodingMap| then 0
    else if EncodingMap[i] == e then i
    else IndexFrom(e, i + 1)
  }

  function IndexForEncoding(e: string): (r: byte)
    ensures r < |EncodingMap|
    ensures e in EncodingMap ==> EncodingMap[r] == e && forall j :: 0 <= j < r ==> EncodingMap[j] != e
    ensures e !in EncodingMap ==> r == 0
  {
    IndexFrom(e, 0)
  }

  lemma NameIndexRoundTrip(e: string)
    requires e in EncodingMap
    ensures EncodingForIndex(IndexForEncoding(e)) == e
  {
  }

  /** The table's names are distinct, so each index is recovered from its name. */
  lemma IndexNameRoundTrip(b: byte)
    requires b < |EncodingMap|
    ensures IndexForEncoding(EncodingForIndex(b)) == b
  {
    var r := IndexForEncoding(EncodingForIndex(b));
    assert EncodingMap[r] == EncodingMap[b];
  }

  // =====================================================================
  // Null terminators

  /** UTF-16 and UTF-16BE text ends with a two-byte null unit. */
  predicate IsWideEncoding(name: string)
  {
    name == "UTF-16" || name == "UTF-16BE"
  }

  lemma WideEncodings(b: byte)
    ensures IsWideEncoding(EncodingForIndex(b)) <==> b == 1 || b == 2
  {
  }

  /** The two-byte unit u (bytes 2u and 2u+1) is all zero. */
  predicate ZeroUnit(data: seq<byte>, u: nat)
    requires 2 * u + 1 < |data|
  {
    data[2 * u] == 0 && data[2 * u + 1] == 0
  }

  /** The loop over aligned units of afterNullIndex, from unit u on. */
  function ScanUnits(data: seq<byte>, u: nat): (r: int)
    requires u <= |data| / UTF16NullLength
    decreases |data| / UTF16NullLength - u
    ensures r == -1 ==> forall v :: u <= v < |data| / 2 ==> !ZeroUnit(data, v)
    ensures r != -1 ==>
              && r % 2 == 0 && 2 * u + 2 <= r <= |data|
              && data[r - 2] == 0 && data[r - 1] == 0
              && forall v :: u <= v < r / 2 - 1 ==> !ZeroUnit(data, v)
  {
    if u == |data| / UTF16NullLength then -1
    else
      var atIndex := UTF16NullLength * u;
      var afterIndex := atIndex + UTF16NullLength;
      if data[atIndex..afterIndex] == [0, 0] then afterIndex
      else ScanUnits(data, u + 1)
  }

  /** Go's bytes.IndexByte on data from position i on. */
  function IndexByteFrom(data: seq<byte>, x: byte, i: nat): (r: int)
    requires i <= |data|
    decreases |data| - i
    ensures r == -1 ==> forall k :: i <= k < |data| ==> data[k] != x
    ensures r != -1 ==> i <= r < |data| && data[r] == x && forall k :: i <= k < r ==> data[k] != x
  {
    if i == |data| then -1
    else if data[i] == x then i
    else IndexByteFrom(data, x, i + 1)
  }

  /** The offset just past the first null terminator of data, or -1. */
  function AfterNullIndex(data: seq<byte>, encoding: byte): (r: int)
    ensures r == -1 || 1 <= r <= |data|
    ensures IsWideEncoding(EncodingForIndex(encoding)) && r != -1 ==>
              && r % 2 == 0 && data[r - 2] == 0 && data[r - 1] == 0
              && forall u :: 0 <= u < r / 2 - 1 ==> !ZeroUnit(data, u)
    ensures IsWideEncoding(EncodingForIndex(encoding)) && r == -1 ==>
              forall u :: 0 <= u < |data| / 2 ==> !ZeroUnit(data, u)
    ensures !IsWideEncoding(EncodingForIndex(encoding)) && r != -1 ==>
              data[r - 1] == 0 && forall k :: 0 <= k < r - 1 ==> data[k] != 0
    ensures !IsWideEncoding(EncodingForIndex(encoding)) && r == -1 ==>
              forall k :: 0 <= k < |data| ==> data[k] != 0
  {
    var encodingString := EncodingForIndex(encoding);
    if IsWideEncoding(encodingString) then
      ScanUnits(data, 0)
    else
      var index := IndexByteFrom(data, 0x00, 0);
      if index >= 0 then index + 1 else -1
  }

  /** The unit scan stops before a trailing odd byte, so it does not see it. */
  lemma {:induction false} ScanUnitsDropOdd(data: seq<byte>, u: nat)
    requires |data| % 2 == 1 && u <= |data| / UTF16NullLength
    ensures ScanUnits(data, u) == ScanUnits(data[..|data| - 1], u)
    decreases |data| / UTF16NullLength - u
  {
    var shorter := data[..|data| - 1];
    assert |shorter| / UTF16NullLength == |data| / UTF16NullLength;
    if u < |data| / UTF16NullLength {
      assert data[2 * u..2 * u + 2] == shorter[2 * u..2 * u + 2];
      ScanUnitsDropOdd(data, u + 1);
    }
  }

  /** In a wide encoding a trailing odd byte is never looked at. */
  lemma TrailingOddByteIgnored(data: seq<byte>, encoding: byte)
    requires IsWideEncoding(EncodingForIndex(encoding)) && |data| % 2 == 1
    ensures AfterNullIndex(data, encoding) == AfterNullIndex(data[..|data| - 1], encoding)
  {
    ScanUnitsDropOdd(data, 0);
  }
}
