/**
 `Decode` and `DecodeMap`: the decoding strategies, with the two base64 alphabets of sections 4
 and 5 of RFC 4648 as Go's `encoding/base64` reads them: padding required, CR and LF skipped,
 trailing bits not looked at.
 */
module Decoding {
  import opened Wrappers

  type Byte = b: int | 0 <= b < 256
  type Bytes = seq<Byte>

  datatype Alphabet = Std | Url

  const PAD: Byte := 61

  /** The value of a base64 digit. */
  function DigitOf(a: Alphabet, b: Byte): Option<nat> {
    if 65 <= b <= 90 then Some(b - 65)
    else if 97 <= b <= 122 then Some(b - 71)
    else if 48 <= b <= 57 then Some(b + 4)
    else if b == (if a.Std? then 43 else 45) then Some(62)
    else if b == (if a.Std? then 47 else 95) then Some(63)
    else None
  }

  function DigitByte(a: Alphabet, d: nat): Byte
    requires d < 64
  {
    if d < 26 then d + 65
    else if d < 52 then d + 71
    else if d < 62 then d - 4
    else if d == 62 then (if a.Std? then 43 else 45)
    else (if a.Std? then 47 else 95)
  }

  /** Tables 1 and 2 of RFC 4648. */
  const STD_DIGITS := "ABCDEFGHIJKLMNOPQRSTUVWXYZabcdefghijklmnopqrstuvwxyz0123456789+/"
  const URL_DIGITS := "ABCDEFGHIJKLMNOPQRSTUVWXYZabcdefghijklmnopqrstuvwxyz0123456789-_"

  function DigitTable(a: Alphabet): (s: string)
    ensures |s| == 64
  {
    if a.Std? then STD_DIGITS else URL_DIGITS
  }

  /** A digit is printed as the table says. */
  lemma DigitsAreTabled(a: Alphabet, d: nat)
    requires d < 64
    ensures DigitByte(a, d) as char == DigitTable(a)[d]
  {
    if d < 26 {
      assert forall i :: 0 <= i < 26 ==> "ABCDEFGHIJKLMNOPQRSTUVWXYZ"[i] as int == i + 65;
      assert DigitTable(a)[d] == "ABCDEFGHIJKLMNOPQRSTUVWXYZ"[d];
    }
  }

  /** A byte is read as a digit exactly if it is printed for one, and then as that one. */
  lemma DigitOfIff(a: Alphabet, b: Byte, d: nat)
    requires d < 64
    ensures DigitOf(a, b) == Some(d) <==> DigitByte(a, d) == b
    ensures DigitOf(a, b).Some? ==> DigitOf(a, b).value < 64
  {
  }

  predicate IsDigit(a: Alphabet, b: Byte) {
    DigitOf(a, b).Some?
  }

  function Strip(s: Bytes): Bytes {
    if s == [] then []
    else if s[0] == 13 || s[0] == 10 then Strip(s[1..])
    else [s[0]] + Strip(s[1..])
  }

  /** The first, second and third byte that four digits stand for. */
  function Byte0(d0: nat, d1: nat): Byte
    requires d0 < 64 && d1 < 64
  {
    d0 * 4 + d1 / 16
  }

  function Byte1(d1: nat, d2: nat): Byte
    requires d1 < 64 && d2 < 64
  {
    d1 % 16 * 16 + d2 / 4
  }

  function Byte2(d2: nat, d3: nat): Byte
    requires d2 < 64 && d3 < 64
  {
    d2 % 4 * 64 + d3
  }

  function Digit(a: Alphabet, b: Byte): (d: nat)
    requires IsDigit(a, b)
    ensures d < 64
  {
    DigitOf(a, b).value
  }

  /** Decoding of text without line breaks: quanta of four, padding only at the very end. */
  function Quanta(a: Alphabet, s: Bytes): Option<Bytes> {
    if s == [] then Some([])
    else if |s| < 4 || !IsDigit(a, s[0]) || !IsDigit(a, s[1]) then None
    else
      var b0 := Byte0(Digit(a, s[0]), Digit(a, s[1]));
      if IsDigit(a, s[2]) && IsDigit(a, s[3]) then
        var b1 := Byte1(Digit(a, s[1]), Digit(a, s[2]));
        var b2 := Byte2(Digit(a, s[2]), Digit(a, s[3]));
        var rest := Quanta(a, s[4..]);
        if rest.None? then None else Some([b0, b1, b2] + rest.value)
      else if |s| == 4 && s[3] == PAD then
        if IsDigit(a, s[2]) then Some([b0, Byte1(Digit(a, s[1]), Digit(a, s[2]))])
        else if s[2] == PAD then Some([b0])
        else None
      else None
  }

  /** `Encoding.DecodeString`. */
  function DecodeString(a: Alphabet, s: Bytes): Option<Bytes> {
    Quanta(a, Strip(s))
  }

  /** `Encoding.EncodeToString`. */
  function Encode(a: Alphabet, x: Bytes): Bytes {
    if x == [] then []
    else if |x| == 1 then
      [DigitByte(a, x[0] / 4), DigitByte(a, x[0] % 4 * 16), PAD, PAD]
    else if |x| == 2 then
      [DigitByte(a, x[0] / 4), DigitByte(a, x[0] % 4 * 16 + x[1] / 16), DigitByte(a, x[1] % 16 * 4), PAD]
    else
      [DigitByte(a, x[0] / 4), DigitByte(a, x[0] % 4 * 16 + x[1] / 16),
       DigitByte(a, x[1] % 16 * 4 + x[2] / 64), DigitByte(a, x[2] % 64)] + Encode(a, x[3..])
  }

  lemma DigitOfDigitByte(a: Alphabet, d: nat)
    requires d < 64
    ensures DigitOf(a, DigitByte(a, d)) == Some(d)
    ensures DigitByte(a, d) !in {10, 13, PAD}
  {
  }

  predicate OneLine(s: Bytes) {
    forall i :: 0 <= i < |s| ==> s[i] != 10 && s[i] != 13
  }

  lemma {:induction false} StripOneLine(s: Bytes)
    requires OneLine(s)
    ensures Strip(s) == s
  {
    if s != [] {
      StripOneLine(s[1..]);
    }
  }

  lemma {:induction false} EncodedIsOneLine(a: Alphabet, x: Bytes)
    ensures OneLine(Encode(a, x))
  {
    if |x| >= 3 {
      EncodedIsOneLine(a, x[3..]);
    }
  }

  lemma DigitsRecompose(b0: Byte, b1: Byte, b2: Byte)
    ensures Byte0(b0 / 4, b0 % 4 * 16 + b1 / 16) == b0
    ensures Byte1(b0 % 4 * 16 + b1 / 16, b1 % 16 * 4 + b2 / 64) == b1
    ensures Byte2(b1 % 16 * 4 + b2 / 64, b2 % 64) == b2
  {
  }

  lemma {:induction false} QuantaOfOne(a: Alphabet, d0: nat, d1: nat)
    requires d0 < 64 && d1 < 64
    ensures Quanta(a, [DigitByte(a, d0), DigitByte(a, d1), PAD, PAD]) == Some([Byte0(d0, d1)])
  {
    DigitOfDigitByte(a, d0);
    DigitOfDigitByte(a, d1);
  }

  lemma {:induction false} QuantaOfTwo(a: Alphabet, d0: nat, d1: nat, d2: nat)
    requires d0 < 64 && d1 < 64 && d2 < 64
    ensures Quanta(a, [DigitByte(a, d0), DigitByte(a, d1), DigitByte(a, d2), PAD])
         == Some([Byte0(d0, d1), Byte1(d1, d2)])
  {
    DigitOfDigitByte(a, d0);
    DigitOfDigitByte(a, d1);
    DigitOfDigitByte(a, d2);
  }

  lemma {:induction false} QuantaOfFull(a: Alphabet, s: Bytes, d0: nat, d1: nat, d2: nat, d3: nat)
    requires |s| >= 4 && d0 < 64 && d1 < 64 && d2 < 64 && d3 < 64
    requires DigitOf(a, s[0]) == Some(d0) && DigitOf(a, s[1]) == Some(d1) && DigitOf(a, s[2]) == Some(d2) && DigitOf(a, s[3]) == Some(d3)
    requires Quanta(a, s[4..]).Some?
    ensures Quanta(a, s) == Some([Byte0(d0, d1), Byte1(d1, d2), Byte2(d2, d3)] + Quanta(a, s[4..]).value)
  {
  }

  lemma {:induction false} QuantaOfEncode(a: Alphabet, x: Bytes)
    ensures Quanta(a, Encode(a, x)) == Some(x)
  {
    if |x| == 1 {
      DigitsRecompose(x[0], 0, 0);
      QuantaOfOne(a, x[0] / 4, x[0] % 4 * 16);
      assert x == [x[0]];
    } else if |x| == 2 {
      DigitsRecompose(x[0], x[1], 0);
      QuantaOfTwo(a, x[0] / 4, x[0] % 4 * 16 + x[1] / 16, x[1] % 16 * 4);
      assert x == [x[0], x[1]];
    } else if |x| >= 3 {
      QuantaOfEncode(a, x[3..]);
      var d := EncodedDigits(a, x);
      QuantaOfFull(a, Encode(a, x), d[0], d[1], d[2], d[3]);
      FirstThree(x);
    }
  }

  lemma FirstThree(x: Bytes)
    requires |x| >= 3
    ensures x == [x[0], x[1], x[2]] + x[3..]
  {
  }

  lemma {:induction false} EncodedTail(a: Alphabet, x: Bytes)
    requires |x| >= 3
    ensures |Encode(a, x)| >= 4 && Encode(a, x)[4..] == Encode(a, x[3..])
    ensures var s := Encode(a, x);
            && s[0] == DigitByte(a, x[0] / 4) && s[1] == DigitByte(a, x[0] % 4 * 16 + x[1] / 16)
            && s[2] == DigitByte(a, x[1] % 16 * 4 + x[2] / 64) && s[3] == DigitByte(a, x[2] % 64)
  {
  }

  lemma {:induction false} EncodedDigits(a: Alphabet, x: Bytes) returns (d: seq<nat>)
    requires |x| >= 3
    ensures |Encode(a, x)| >= 4 && Encode(a, x)[4..] == Encode(a, x[3..])
    ensures |d| == 4 && forall i :: 0 <= i < 4 ==> d[i] < 64 && DigitOf(a, Encode(a, x)[i]) == Some(d[i])
    ensures Byte0(d[0], d[1]) == x[0] && Byte1(d[1], d[2]) == x[1] && Byte2(d[2], d[3]) == x[2]
  {
    d := [x[0] / 4, x[0] % 4 * 16 + x[1] / 16, x[1] % 16 * 4 + x[2] / 64, x[2] % 64];
    EncodedTail(a, x);
    forall i | 0 <= i < 4
      ensures DigitOf(a, Encode(a, x)[i]) == Some(d[i])
    {
      DigitOfDigitByte(a, d[i]);
    }
    DigitsRecompose(x[0], x[1], x[2]);
  }

  /** The decoder of an alphabet inverts its encoder. */
  lemma {:induction false} DecodeOfEncode(a: Alphabet, x: Bytes)
    ensures DecodeString(a, Encode(a, x)) == Some(x)
  {
    EncodedIsOneLine(a, x);
    StripOneLine(Encode(a, x));
    QuantaOfEncode(a, x);
  }

  /** Whole quanta of digits, of which the last may end in `pads` padding characters. */
  predicate Padded(a: Alphabet, s: Bytes, pads: nat) {
    && pads <= 2 && pads <= |s| && |s| % 4 == 0
    && (forall i :: 0 <= i < |s| - pads ==> IsDigit(a, s[i]))
    && (forall i :: |s| - pads <= i < |s| ==> s[i] == PAD)
  }

  lemma PaddedTail(a: Alphabet, s: Bytes, pads: nat)
    requires |s| > 4 && pads <= 2
    ensures Padded(a, s, pads) <==> |s| % 4 == 0 && (forall i :: 0 <= i < 4 ==> IsDigit(a, s[i])) && Padded(a, s[4..], pads)
  {
    assert forall i :: 4 <= i < |s| ==> s[i] == s[4..][i - 4];
    if |s| % 4 == 0 {
      assert |s[4..]| >= 4;
    }
  }

  lemma OneQuantum(a: Alphabet, s: Bytes, pads: nat)
    requires |s| == 4 && pads <= 2
    ensures Padded(a, s, pads) <==>
              IsDigit(a, s[0]) && IsDigit(a, s[1])
              && (if pads == 2 then s[2] == PAD else IsDigit(a, s[2])) && (if pads > 0 then s[3] == PAD else IsDigit(a, s[3]))
  {
  }

  lemma {:induction false} PaddedIsAccepted(a: Alphabet, s: Bytes, pads: nat)
    requires Padded(a, s, pads)
    ensures Quanta(a, s).Some? && |Quanta(a, s).value| == |s| / 4 * 3 - pads
  {
    if |s| == 4 {
      OneQuantum(a, s, pads);
      assert Quanta(a, s[4..]) == Some([]);
    } else if |s| > 4 {
      PaddedTail(a, s, pads);
      PaddedIsAccepted(a, s[4..], pads);
    }
  }

  /** How many padding characters a text ends in, up to two. */
  function Pads(s: Bytes): nat {
    if |s| < 2 || s[|s| - 1] != PAD then 0 else if s[|s| - 2] != PAD then 1 else 2
  }

  lemma {:induction false} AcceptedQuantum(a: Alphabet, s: Bytes)
    requires |s| == 4 && Quanta(a, s).Some?
    ensures Padded(a, s, Pads(s))
  {
    OneQuantum(a, s, Pads(s));
  }

  lemma {:induction false} AcceptedTail(a: Alphabet, s: Bytes)
    ensures s != [] && |s| != 4 && Quanta(a, s).Some? ==> (|s| > 4 && Quanta(a, s[4..]).Some? && forall i :: 0 <= i < 4 ==> IsDigit(a, s[i]))
  {
  }

  lemma PaddedWithTail(a: Alphabet, s: Bytes)
    requires |s| > 4 && (forall i :: 0 <= i < 4 ==> IsDigit(a, s[i])) && Padded(a, s[4..], Pads(s[4..]))
    ensures Padded(a, s, Pads(s))
  {
    var tail := s[4..];
    assert |tail| >= 4 && tail[|tail| - 1] == s[|s| - 1] && tail[|tail| - 2] == s[|s| - 2];
    PaddedTail(a, s, Pads(s));
  }

  lemma {:induction false} AcceptedIsPadded(a: Alphabet, s: Bytes)
    requires Quanta(a, s).Some?
    ensures Padded(a, s, Pads(s))
    decreases |s|
  {
    if |s| == 4 {
      AcceptedQuantum(a, s);
    } else if s != [] {
      AcceptedTail(a, s);
      AcceptedIsPadded(a, s[4..]);
      PaddedWithTail(a, s);
    }
  }

  /**
   A decoder accepts exactly whole quanta of digits with their padding, once line breaks are skipped,
   and the padding says how many bytes there are.
   */
  lemma {:induction false} AcceptedIff(a: Alphabet, s: Bytes)
    ensures DecodeString(a, s).Some? <==> Padded(a, Strip(s), Pads(Strip(s)))
    ensures DecodeString(a, s).Some? ==> |DecodeString(a, s).value| == |Strip(s)| / 4 * 3 - Pads(Strip(s))
  {
    var text := Strip(s);
    if DecodeString(a, s).Some? {
      AcceptedIsPadded(a, text);
    }
    if Padded(a, text, Pads(text)) {
      PaddedIsAccepted(a, text, Pads(text));
    }
  }

  lemma {:induction false} EncodeThree(a: Alphabet, b0: Byte, b1: Byte, b2: Byte)
    ensures Encode(a, [b0, b1, b2])
         == [DigitByte(a, b0 / 4), DigitByte(a, b0 % 4 * 16 + b1 / 16), DigitByte(a, b1 % 16 * 4 + b2 / 64), DigitByte(a, b2 % 64)]
  {
    var x: Bytes := [b0, b1, b2];
    assert x[3..] == [] && Encode(a, x[3..]) == [];
  }

  /** Test vectors of section 10 of RFC 4648: "f", "fo" and "foo"; and where the alphabets differ. */
  lemma {:induction false} EncodeExamples(a: Alphabet)
    ensures Encode(a, [102]) == [90, 103, PAD, PAD]
    ensures Encode(a, [102, 111]) == [90, 109, 56, PAD]
    ensures Encode(a, [102, 111, 111]) == [90, 109, 57, 118]
    ensures Encode(Std, [251, 255, 191]) == [43, 47, 43, 47] && Encode(Url, [251, 255, 191]) == [45, 95, 45, 95]
  {
    EncodePadded(a);
    EncodeThree(a, 102, 111, 111);
    AlphabetsDiffer();
  }

  lemma {:induction false} EncodePadded(a: Alphabet)
    ensures Encode(a, [102]) == [90, 103, PAD, PAD]
    ensures Encode(a, [102, 111]) == [90, 109, 56, PAD]
  {
  }

  lemma AlphabetsDiffer()
    ensures Encode(Std, [251, 255, 191]) == [43, 47, 43, 47] && Encode(Url, [251, 255, 191]) == [45, 95, 45, 95]
  {
    EncodeThree(Std, 251, 255, 191);
    EncodeThree(Url, 251, 255, 191);
  }

  /** A byte that is a digit in both alphabets has the same value in both. */
  lemma SameDigit(b: Byte)
    requires IsDigit(Std, b) && IsDigit(Url, b)
    ensures Digit(Std, b) == Digit(Url, b)
  {
  }

  lemma {:induction false} QuantaAgree(s: Bytes)
    requires Quanta(Std, s).Some? && Quanta(Url, s).Some?
    ensures Quanta(Std, s) == Quanta(Url, s)
  {
    if s != [] {
      SameDigit(s[0]);
      SameDigit(s[1]);
      assert IsDigit(Std, s[2]) <==> s[2] != PAD;
      assert IsDigit(Url, s[2]) <==> s[2] != PAD;
      if IsDigit(Std, s[2]) && IsDigit(Std, s[3]) {
        QuantaAgree(s[4..]);
      }
    }
  }

  /** Whenever both decoders accept a text they return the same bytes. */
  lemma DecodersAgree(s: Bytes, std: Bytes, url: Bytes)
    requires DecodeString(Std, s) == Some(std) && DecodeString(Url, s) == Some(url)
    ensures std == url
  {
    QuantaAgree(Strip(s));
  }

  // ---------------------------------------------------------------- strategies

  /** `ExternalSecretDecodingStrategy`; `Unset` is the empty string. */
  datatype Strategy = Base64 | Base64URL | NoDecoding | Unset | Auto | Unsupported(name: string)

  datatype DecodeError = CorruptInput | UnsupportedStrategy(name: string)

  function Checked(r: Option<Bytes>): Result<Bytes, DecodeError> {
    if r.Some? then Success(r.value) else Failure(CorruptInput)
  }

  function Decode(strategy: Strategy, s: Bytes): Result<Bytes, DecodeError>
    decreases if strategy.Auto? then 1 else 0
  {
    match strategy
    case Base64 => Checked(DecodeString(Std, s))
    case Base64URL => Checked(DecodeString(Url, s))
    case NoDecoding => Success(s)
    case Unset => Success(s)
    case Auto =>
      var std := Decode(Base64, s);
      if std.Success? then std
      else
        var url := Decode(Base64URL, s);
        if url.Success? then url else Decode(NoDecoding, s)
    case Unsupported(name) => Failure(UnsupportedStrategy(name))
  }

  /** Each strategy by its name: the two base64 ones read their own alphabet, and two strategies change nothing. */
  lemma {:induction false} StrategiesInvert(x: Bytes)
    ensures Decode(Base64, Encode(Std, x)) == Success(x) && Decode(Base64URL, Encode(Url, x)) == Success(x)
    ensures Decode(NoDecoding, x) == Success(x) && Decode(Unset, x) == Success(x)
  {
    DecodeOfEncode(Std, x);
    DecodeOfEncode(Url, x);
  }

  /** And when they fail: on text that is not in their own alphabet with its padding, and under any other name always. */
  lemma {:induction false} StrategiesFailIff(s: Bytes, name: string)
    ensures Decode(Base64, s).Success? <==> Padded(Std, Strip(s), Pads(Strip(s)))
    ensures Decode(Base64URL, s).Success? <==> Padded(Url, Strip(s), Pads(Strip(s)))
    ensures Decode(Base64, s).Failure? ==> Decode(Base64, s).error == CorruptInput
    ensures Decode(Base64URL, s).Failure? ==> Decode(Base64URL, s).error == CorruptInput
    ensures Decode(Unsupported(name), s) == Failure(UnsupportedStrategy(name))
  {
    AcceptedIff(Std, s);
    AcceptedIff(Url, s);
  }

  /** Padding only cuts off: what a padded quantum reads as is the start of what it reads as with digits for the padding. */
  lemma {:induction false} PaddingCutsOff(a: Alphabet, s: Bytes, pads: nat, z: Byte, full: Bytes)
    requires |s| == 4 && Padded(a, s, pads) && IsDigit(a, z)
    requires full == s[..4 - pads] + (if pads == 0 then [] else if pads == 1 then [z] else [z, z])
    ensures Quanta(a, s).Some? && Quanta(a, full).Some?
    ensures Quanta(a, s).value == Quanta(a, full).value[..3 - pads]
  {
    OneQuantum(a, s, pads);
    assert full[0] == s[0] && full[1] == s[1] && (pads < 2 ==> full[2] == s[2]);
    assert s[4..] == [] && full[4..] == [];
  }

  /** Auto inverts both encodings of every byte string. */
  lemma {:induction false} AutoInvertsBoth(a: Alphabet, x: Bytes)
    ensures Decode(Auto, Encode(a, x)) == Success(x)
  {
    var s := Encode(a, x);
    DecodeOfEncode(a, x);
    if DecodeString(Std, s).Some? && DecodeString(Url, s).Some? {
      DecodersAgree(s, DecodeString(Std, s).value, DecodeString(Url, s).value);
    }
  }

  /**
   Auto never fails, and what it returns does not depend on which alphabet is tried first; only text
   neither accepts comes back as it is.
   */
  lemma {:induction false} AutoIsSymmetric(a: Alphabet, s: Bytes)
    ensures Decode(Auto, s).Success?
    ensures DecodeString(a, s).Some? ==> Decode(Auto, s) == Success(DecodeString(a, s).value)
    ensures DecodeString(Std, s).None? && DecodeString(Url, s).None? ==> Decode(Auto, s) == Success(s)
  {
    if DecodeString(Std, s).Some? && DecodeString(Url, s).Some? {
      DecodersAgree(s, DecodeString(Std, s).value, DecodeString(Url, s).value);
    }
  }

  /** A line break anywhere changes nothing for either decoder. */
  lemma {:induction false} LineBreaksDoNotMatter(a: Alphabet, before: Bytes, b: Byte, after: Bytes)
    requires b == 10 || b == 13
    ensures DecodeString(a, before + [b] + after) == DecodeString(a, before + after)
  {
    StripSplit(before + [b], after);
    StripSplit(before, [b]);
    StripSplit(before, after);
    assert Strip([b]) == Strip([b][1..]) == [];
    assert Strip(before) + [] == Strip(before);
  }

  lemma {:induction false} StripSplit(x: Bytes, y: Bytes)
    ensures Strip(x + y) == Strip(x) + Strip(y)
  {
    if x == [] {
      assert x + y == y;
    } else {
      assert (x + y)[1..] == x[1..] + y;
      StripSplit(x[1..], y);
    }
  }

  /** `DecodeMap`: every value decoded under its own key, or an error of some value that cannot be. */
  method DecodeMap(strategy: Strategy, original: map<string, Bytes>) returns (r: Result<map<string, Bytes>, (string, DecodeError)>)
    ensures r.Success? <==> forall k :: k in original ==> Decode(strategy, original[k]).Success?
    ensures r.Success? ==> r.value.Keys == original.Keys
    ensures r.Success? ==> forall k :: k in original ==> Decode(strategy, original[k]) == Success(r.value[k])
    ensures r.Failure? ==> r.error.0 in original && Decode(strategy, original[r.error.0]) == Failure(r.error.1)
  {
    ghost var decoded: Bytes -> Result<Bytes, DecodeError> := s => Decode(strategy, s);
    var out: map<string, Bytes> := map[];
    var rest := original.Keys;
    while rest != {}
      invariant rest <= original.Keys
      invariant out.Keys == original.Keys - rest
      invariant forall k :: k in out ==> decoded(original[k]) == Success(out[k])
      decreases rest
    {
      var k :| k in rest;
      var val := Decode(strategy, original[k]);
      if val.Failure? {
        return Failure((k, val.error));
      }
      out := out[k := val.value];
      rest := rest - {k};
    }
    r := Success(out);
  }
}
