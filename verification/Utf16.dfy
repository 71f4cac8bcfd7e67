/** The UTF-16 encoder of the X11 input helper, against the decoder of section 2.2
    of RFC 2781. Codes and units are unsigned integers; shifts and masks are written
    as division and remainder, and the or of disjoint bits as a sum, which
    BitwiseForm justifies on machine words. */
module Utf16 {
  import opened Options

  /** On machine words: the shifted and the masked part are quotient and remainder by
      0x400, and or-ing in the surrogate bits adds them. */
  lemma BitwiseForm(rest: bv32)
    requires rest < 0x100000
    ensures ((rest >> 10) << 10) + (rest & 0x3FF) == rest && rest & 0x3FF < 0x400
    ensures 0xD800 | (rest >> 10) == 0xD800 + (rest >> 10)
    ensures 0xDC00 | (rest & 0x3FF) == 0xDC00 + (rest & 0x3FF)
  {}

  /** The Unicode scalar values: code points up to U+10FFFF other than surrogates. */
  predicate IsScalar(code: nat) {
    code <= 0xD7FF || 0xE000 <= code <= 0x10FFFF
  }

  /** The code units written for one UTF-32 code; none for a code that is not a scalar value. */
  function Encode(code: nat): seq<nat> {
    if code <= 0x10FFFF then
      if code <= 0xD7FF || (code >= 0xE000 && code <= 0xFFFF) then
        [code]
      else if code >= 0x10000 then
        var rest := code - 0x10000;
        [0xD800 + rest / 0x400, 0xDC00 + rest % 0x400]
      else
        []
    else
      []
  }

  /** keycode_to_unicode of the xkbcommon build: fills the caller's buffer and returns how
      many units were written. The length is checked for the one-unit case only; the
      result is not ok where the source would write its pair past the end. */
  method KeycodeToUnicode(code: nat, buffer: array<nat>) returns (count: nat, ok: bool)
    modifies buffer
    ensures ok <==> (|Encode(code)| == 2 ==> buffer.Length >= 2)
    ensures ok ==> count == if buffer.Length == 0 then 0 else |Encode(code)|
    ensures ok ==> count <= buffer.Length && buffer[..count] == Encode(code)[..count]
    ensures ok ==> buffer[count..] == old(buffer[count..])
  {
    count, ok := 0, true;
    if code <= 0x10FFFF {
      if (code <= 0xD7FF || (code >= 0xE000 && code <= 0xFFFF)) && buffer.Length >= 1 {
        buffer[0] := code;
        count := 1;
      } else if code >= 0x10000 {
        if buffer.Length < 2 {
          ok := false;
          return;
        }
        var rest := code - 0x10000;
        buffer[0] := 0xD800 + rest / 0x400;
        buffer[1] := 0xDC00 + rest % 0x400;
        count := 2;
      }
    }
  }

  predicate IsHigh(w: nat) {
    0xD800 <= w <= 0xDBFF
  }

  predicate IsLow(w: nat) {
    0xDC00 <= w <= 0xDFFF
  }

  /** Section 2.2 of RFC 2781, steps 4 and 5: the character of a surrogate pair. */
  function Join(w1: nat, w2: nat): nat {
    (w1 % 0x400) * 0x400 + w2 % 0x400 + 0x10000
  }

  /** Section 2.2 of RFC 2781: decodes a whole text, or fails on an ill-formed one. */
  function Decode(units: seq<nat>): Option<seq<nat>>
    decreases |units|
  {
    if units == [] then
      Some([])
    else if !IsHigh(units[0]) && !IsLow(units[0]) then
      match Decode(units[1..])
      case None => None
      case Some(rest) => Some([units[0]] + rest)
    else if IsHigh(units[0]) && |units| >= 2 && IsLow(units[1]) then
      match Decode(units[2..])
      case None => None
      case Some(rest) => Some([Join(units[0], units[1])] + rest)
    else
      None
  }

  /** The units of a sequence of codes. */
  function EncodeAll(codes: seq<nat>): seq<nat> {
    if codes == [] then [] else Encode(codes[0]) + EncodeAll(codes[1..])
  }

  /** The scalar values of a sequence of codes, in order. */
  function Scalars(codes: seq<nat>): seq<nat> {
    if codes == [] then []
    else (if IsScalar(codes[0]) then [codes[0]] else []) + Scalars(codes[1..])
  }

  lemma EncodeShape(code: nat)
    ensures !IsScalar(code) <==> Encode(code) == []
    ensures IsScalar(code) && code <= 0xFFFF ==>
              |Encode(code)| == 1 && Encode(code)[0] == code
              && !IsHigh(Encode(code)[0]) && !IsLow(Encode(code)[0])
    ensures IsScalar(code) && code > 0xFFFF ==>
              |Encode(code)| == 2 && IsHigh(Encode(code)[0]) && IsLow(Encode(code)[1])
              && Join(Encode(code)[0], Encode(code)[1]) == code
  {}

  /** Decoding what one code wrote, followed by any text, gives that code first. */
  lemma DecodeFirst(code: nat, text: seq<nat>)
    requires Decode(text).Some?
    ensures Decode(Encode(code) + text)
         == Some((if IsScalar(code) then [code] else []) + Decode(text).value)
  {
    EncodeShape(code);
    var all := Encode(code) + text;
    if !IsScalar(code) {
      assert all == text && Decode(text).value == [] + Decode(text).value;
    } else if code <= 0xFFFF {
      assert all[1..] == text;
    } else {
      assert all[2..] == text;
    }
  }

  /** Whatever codes are typed, the text decodes to exactly their scalar values. */
  lemma {:induction false} RoundTrip(codes: seq<nat>)
    ensures Decode(EncodeAll(codes)) == Some(Scalars(codes))
  {
    if codes != [] {
      RoundTrip(codes[1..]);
      DecodeFirst(codes[0], EncodeAll(codes[1..]));
    }
  }

  lemma {:induction false} EncodeAllSnoc(codes: seq<nat>, code: nat)
    ensures EncodeAll(codes + [code]) == EncodeAll(codes) + Encode(code)
  {
    if codes == [] {
      assert EncodeAll([code]) == Encode(code) + EncodeAll([]);
    } else {
      assert (codes + [code])[1..] == codes[1..] + [code];
      EncodeAllSnoc(codes[1..], code);
    }
  }
}
