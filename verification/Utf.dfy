/** UTF-8 and UTF-16, and the conversions between them. Malformed input never fails: it becomes U+FFFD. */
module Utf {
  import opened Bytes

  const UNICODE_REPLACEMENT_CHARACTER: int := 0xFFFD
  const UNICODE_MAX_CODE_POINT: int := 0x10FFFF

  type u16 = u: int | 0 <= u < 0x10000
  type codepoint = c: int | 0 <= c <= 0x10FFFF

  predicate IsHigh(u: int) {
    0xD800 <= u <= 0xDBFF
  }

  predicate IsLow(u: int) {
    0xDC00 <= u <= 0xDFFF
  }

  /** A code point that is not a surrogate. */
  predicate IsScalar(c: int) {
    0 <= c <= UNICODE_MAX_CODE_POINT && !(0xD800 <= c <= 0xDFFF)
  }

  // ----- encoding one code point -----

  function EncodeUtf8(c: codepoint): (r: seq<byte>)
    ensures 1 <= |r| <= 4
  {
    if c <= 0x7F then [c]
    else if c <= 0x7FF then [0xC0 + c / 64, 0x80 + c % 64]
    else if c <= 0xFFFF then [0xE0 + c / 64 / 64, 0x80 + c / 64 % 64, 0x80 + c % 64]
    else [0xF0 + c / 64 / 64 / 64, 0x80 + c / 64 / 64 % 64, 0x80 + c / 64 % 64, 0x80 + c % 64]
  }

  function EncodeUtf16(c: codepoint): (r: seq<u16>)
    ensures 1 <= |r| <= 2
  {
    if c <= 0xFFFF then [c]
    else [0xD800 + (c - 0x10000) / 1024, 0xDC00 + (c - 0x10000) % 1024]
  }

  /** The program builds these with shifts, masks and "or"; on disjoint bits that is the arithmetic above. */
  lemma ShiftsAreArithmetic(c: bv32)
    ensures c <= 0x7FF ==> (0xC0 | (c >> 6)) == 0xC0 + c / 64
    ensures c <= 0xFFFF ==> (0xE0 | (c >> 12)) == 0xE0 + c / 64 / 64
    ensures c <= 0x10FFFF ==> (0xF0 | (c >> 18)) == 0xF0 + c / 64 / 64 / 64
    ensures (0x80 | (c & 0x3F)) == 0x80 + c % 64
  {
  }

  /** The tests on a lead or continuation octet, as ranges. */
  lemma MasksAreRanges(b: bv8)
    ensures (b & 0xE0) == 0xC0 <==> 0xC0 <= b <= 0xDF
    ensures (b & 0xF0) == 0xE0 <==> 0xE0 <= b <= 0xEF
    ensures (b & 0xF8) == 0xF0 <==> 0xF0 <= b <= 0xF7
    ensures (b & 0xC0) == 0x80 <==> 0x80 <= b <= 0xBF
  {
  }

  // ----- decoding one code point -----

  datatype Decoded = Decoded(c: codepoint, consumed: nat)

  const REPLACED: Decoded := Decoded(0xFFFD, 1)

  predicate IsTail(b: byte) {
    0x80 <= b <= 0xBF
  }

  /** How many octets a lead octet announces; 0 for an octet that cannot lead. */
  function SeqLen(lead: byte): nat {
    if lead <= 0x7F then 1
    else if 0xC0 <= lead <= 0xDF then 2
    else if 0xE0 <= lead <= 0xEF then 3
    else if 0xF0 <= lead <= 0xF7 then 4
    else 0
  }

  /** The bits a lead octet contributes. */
  function LeadBits(lead: byte): nat {
    if lead <= 0x7F then lead
    else if lead <= 0xDF then lead % 32
    else if lead <= 0xEF then lead % 16
    else lead % 8
  }

  function MinCodepoint(n: nat): nat {
    if n == 2 then 0x80 else if n == 3 then 0x800 else 0x10000
  }

  /** The bits of the first `k` octets of a sequence. */
  function Accumulated(s: seq<byte>, k: nat): (v: nat)
    requires 1 <= k <= |s|
  {
    if k == 1 then LeadBits(s[0]) else Accumulated(s, k - 1) * 64 + s[k - 1] % 64
  }

  /** One step of decoding at the head of a string. Only a sequence that is complete and has proper continuation
      octets is consumed whole; it still decodes to U+FFFD when it is overlong, a surrogate or too large. */
  function DecodeUtf8(s: seq<byte>): (d: Decoded)
    requires s != []
    ensures 1 <= d.consumed <= |s| && d.consumed <= 4
    ensures IsScalar(d.c)
  {
    var n := SeqLen(s[0]);
    if n == 1 then Decoded(s[0], 1)
    else if n == 0 || |s| < n then REPLACED
    else if exists k :: 1 <= k < n && !IsTail(s[k]) then REPLACED
    else
      var v := Accumulated(s, n);
      if v < MinCodepoint(n) || !IsScalar(v) then Decoded(0xFFFD, n) else Decoded(v, n)
  }

  /** decodeUtf8 of `src` at `pos`, with its loop over the continuation octets. */
  method DecodeAt(src: seq<byte>, pos: nat) returns (d: Decoded)
    requires pos < |src|
    ensures d == DecodeUtf8(src[pos..])
  {
    var lead := src[pos];
    ghost var s := src[pos..];
    if lead <= 0x7F {
      return Decoded(lead, 1);
    }
    var n := SeqLen(lead);
    if n == 0 {
      return REPLACED;
    }
    if |src| - pos < n {
      return REPLACED;
    }
    var c: nat := LeadBits(lead);
    for k := 1 to n
      invariant forall j :: 1 <= j < k ==> IsTail(s[j])
      invariant c == Accumulated(s, k)
    {
      var cont := src[pos + k];
      if !IsTail(cont) {
        assert !IsTail(s[k]);
        return REPLACED;
      }
      c := c * 64 + cont % 64;
    }
    if c < MinCodepoint(n) || c > UNICODE_MAX_CODE_POINT || (0xD800 <= c && c <= 0xDFFF) {
      return Decoded(0xFFFD, n);
    }
    return Decoded(c, n);
  }

  // ----- the reference: well-formed strings -----

  /** One character of RFC 3629 section 4: its length if `s` starts with one, else 0. */
  function Utf8Char(s: seq<byte>): (n: nat)
    ensures n <= |s|
  {
    if |s| >= 1 && s[0] <= 0x7F then 1
    else if |s| >= 2 && 0xC2 <= s[0] <= 0xDF && IsTail(s[1]) then 2
    else if |s| >= 3 && IsTail(s[2]) &&
      (|| (s[0] == 0xE0 && 0xA0 <= s[1] <= 0xBF) || (0xE1 <= s[0] <= 0xEC && IsTail(s[1]))
       || (s[0] == 0xED && 0x80 <= s[1] <= 0x9F) || (0xEE <= s[0] <= 0xEF && IsTail(s[1]))) then 3
    else if |s| >= 4 && IsTail(s[2]) && IsTail(s[3]) &&
      (|| (s[0] == 0xF0 && 0x90 <= s[1] <= 0xBF) || (0xF1 <= s[0] <= 0xF3 && IsTail(s[1]))
       || (s[0] == 0xF4 && 0x80 <= s[1] <= 0x8F)) then 4
    else 0
  }

  predicate IsUtf8(s: seq<byte>)
    decreases |s|
  {
    s == [] || (Utf8Char(s) > 0 && IsUtf8(s[Utf8Char(s)..]))
  }

  /** RFC 2781 section 2: no surrogate stands alone. */
  predicate IsUtf16(w: seq<u16>)
    decreases |w|
  {
    w == []
    || (!IsHigh(w[0]) && !IsLow(w[0]) && IsUtf16(w[1..]))
    || (|w| >= 2 && IsHigh(w[0]) && IsLow(w[1]) && IsUtf16(w[2..]))
  }

  // ----- one character, encoded and decoded -----

  lemma EncodedIsChar(c: codepoint, rest: seq<byte>)
    requires IsScalar(c)
    ensures Utf8Char(EncodeUtf8(c) + rest) == |EncodeUtf8(c)|
    ensures (EncodeUtf8(c) + rest)[|EncodeUtf8(c)|..] == rest
  {
    var s := EncodeUtf8(c) + rest;
    assert s[|EncodeUtf8(c)|..] == rest;
    assert forall i :: 0 <= i < |EncodeUtf8(c)| ==> s[i] == EncodeUtf8(c)[i];
  }

  lemma Horner(x: nat, y: nat)
    requires y < 64
    ensures (x * 64 + y) / 64 == x && (x * 64 + y) % 64 == y
  {
  }

  lemma AccumulatedParts(s: seq<byte>, n: nat)
    requires 2 <= n <= |s| && 0xC0 <= s[0]
    ensures n == 2 ==> Accumulated(s, n) == LeadBits(s[0]) * 64 + s[1] % 64
    ensures n == 3 ==> Accumulated(s, n) == (LeadBits(s[0]) * 64 + s[1] % 64) * 64 + s[2] % 64
    ensures n == 4 ==> Accumulated(s, n) == ((LeadBits(s[0]) * 64 + s[1] % 64) * 64 + s[2] % 64) * 64 + s[3] % 64
  {
    assert Accumulated(s, 2) == LeadBits(s[0]) * 64 + s[1] % 64;
    if n >= 3 {
      assert Accumulated(s, 3) == Accumulated(s, 2) * 64 + s[2] % 64;
    }
    if n >= 4 {
      assert Accumulated(s, 4) == Accumulated(s, 3) * 64 + s[3] % 64;
    }
  }

  lemma CharValue(s: seq<byte>)
    requires Utf8Char(s) >= 2
    ensures var n := Utf8Char(s);
      && SeqLen(s[0]) == n && (forall k :: 1 <= k < n ==> IsTail(s[k]))
      && Accumulated(s, n) >= MinCodepoint(n) && IsScalar(Accumulated(s, n))
  {
    hide Accumulated;
    var n := Utf8Char(s);
    AccumulatedParts(s, n);
    if n == 2 {
      CharValue2(s[0], s[1]);
    } else if n == 3 {
      CharValue3(s[0], s[1], s[2]);
    } else {
      CharValue4(s[0], s[1], s[2], s[3]);
    }
  }

  lemma CharValue2(a: byte, b: byte)
    requires 0xC2 <= a <= 0xDF && IsTail(b)
    ensures 0x80 <= LeadBits(a) * 64 + b % 64 <= 0x7FF
  {
  }

  lemma CharValue3(a: byte, b: byte, c: byte)
    requires IsTail(b) && IsTail(c) && 0xE0 <= a <= 0xEF && (a == 0xE0 ==> b >= 0xA0) && (a == 0xED ==> b <= 0x9F)
    ensures var v := (LeadBits(a) * 64 + b % 64) * 64 + c % 64;
      0x800 <= v <= 0xFFFF && IsScalar(v)
  {
  }

  lemma CharValue4(a: byte, b: byte, c: byte, d: byte)
    requires IsTail(b) && IsTail(c) && IsTail(d) && 0xF0 <= a <= 0xF4 && (a == 0xF0 ==> b >= 0x90) && (a == 0xF4 ==> b <= 0x8F)
    ensures 0x10000 <= ((LeadBits(a) * 64 + b % 64) * 64 + c % 64) * 64 + d % 64 <= 0x10FFFF
  {
  }

  lemma EncodeOfBits2(l: nat, x: nat)
    requires x < 64 && 0x80 <= l * 64 + x <= 0x7FF
    ensures EncodeUtf8(l * 64 + x) == [0xC0 + l, 0x80 + x]
  {
    Horner(l, x);
  }

  lemma EncodeOfBits3(l: nat, x: nat, y: nat)
    requires x < 64 && y < 64 && 0x800 <= (l * 64 + x) * 64 + y <= 0xFFFF
    ensures EncodeUtf8((l * 64 + x) * 64 + y) == [0xE0 + l, 0x80 + x, 0x80 + y]
  {
    Horner(l * 64 + x, y);
    Horner(l, x);
  }

  lemma EncodeOfBits4(l: nat, x: nat, y: nat, z: nat)
    requires x < 64 && y < 64 && z < 64 && 0x10000 <= ((l * 64 + x) * 64 + y) * 64 + z <= 0x10FFFF
    ensures EncodeUtf8(((l * 64 + x) * 64 + y) * 64 + z) == [0xF0 + l, 0x80 + x, 0x80 + y, 0x80 + z]
  {
    Horner((l * 64 + x) * 64 + y, z);
    Horner(l * 64 + x, y);
    Horner(l, x);
  }

  lemma TailBits(b: byte)
    requires IsTail(b)
    ensures b == 0x80 + b % 64
  {
  }

  predicate Complete(s: seq<byte>, n: nat) {
    2 <= n <= |s| && n == SeqLen(s[0]) && forall k :: 1 <= k < n ==> IsTail(s[k])
  }

  lemma EncodeOf2(s: seq<byte>)
    requires Complete(s, 2) && 0x80 <= Accumulated(s, 2) <= 0x10FFFF
    ensures EncodeUtf8(Accumulated(s, 2)) == s[..2]
  {
    TailBits(s[1]);
    AccumulatedParts(s, 2);
    EncodeOfBits2(LeadBits(s[0]), s[1] % 64);
    assert s[..2] == [s[0], s[1]];
  }

  lemma EncodeOf3(s: seq<byte>)
    requires Complete(s, 3) && 0x800 <= Accumulated(s, 3) <= 0x10FFFF
    ensures EncodeUtf8(Accumulated(s, 3)) == s[..3]
  {
    assert IsTail(s[1]) && IsTail(s[2]);
    TailBits(s[1]);
    TailBits(s[2]);
    AccumulatedParts(s, 3);
    EncodeOfBits3(LeadBits(s[0]), s[1] % 64, s[2] % 64);
    assert s[..3] == [s[0], s[1], s[2]];
  }

  lemma EncodeOf4(s: seq<byte>)
    requires Complete(s, 4) && 0x10000 <= Accumulated(s, 4) <= 0x10FFFF
    ensures EncodeUtf8(Accumulated(s, 4)) == s[..4]
  {
    assert IsTail(s[1]) && IsTail(s[2]) && IsTail(s[3]);
    TailBits(s[1]);
    TailBits(s[2]);
    TailBits(s[3]);
    AccumulatedParts(s, 4);
    EncodeOfBits4(LeadBits(s[0]), s[1] % 64, s[2] % 64, s[3] % 64);
    assert s[..4] == [s[0], s[1], s[2], s[3]];
  }

  /** A character of the grammar decodes to the scalar value that encodes to it. */
  lemma CharDecodes(s: seq<byte>)
    requires Utf8Char(s) > 0
    ensures DecodeUtf8(s).consumed == Utf8Char(s)
    ensures EncodeUtf8(DecodeUtf8(s).c) == s[..Utf8Char(s)]
  {
    var n := Utf8Char(s);
    if n >= 2 {
      CharValue(s);
      if n == 2 {
        EncodeOf2(s);
      } else if n == 3 {
        EncodeOf3(s);
      } else {
        EncodeOf4(s);
      }
      assert DecodeUtf8(s) == Decoded(Accumulated(s, n), n);
    }
  }

  lemma DecodeOfEncoded(c: codepoint, rest: seq<byte>)
    requires IsScalar(c)
    ensures DecodeUtf8(EncodeUtf8(c) + rest) == Decoded(c, |EncodeUtf8(c)|)
  {
    var s := EncodeUtf8(c) + rest;
    EncodedIsChar(c, rest);
    CharDecodes(s);
    assert s[..|EncodeUtf8(c)|] == EncodeUtf8(c);
    EncodeInjective(c, DecodeUtf8(s).c);
  }

  lemma EncodeInjective(c: codepoint, d: codepoint)
    requires EncodeUtf8(c) == EncodeUtf8(d)
    ensures c == d
  {
    var r, q := EncodeUtf8(c), EncodeUtf8(d);
    assert |r| == |q| && r[0] == q[0];
    if |r| == 2 {
      assert r[1] == q[1];
    } else if |r| == 3 {
      assert r[1] == q[1] && r[2] == q[2];
    } else if |r| == 4 {
      assert r[1] == q[1] && r[2] == q[2] && r[3] == q[3];
    }
  }

  /** How many octets the bit patterns of lead and continuation octets bind together, whatever their value. */
  function PatternLength(s: seq<byte>): (n: nat)
    requires s != []
    ensures 1 <= n <= |s|
  {
    if |s| >= 2 && 0xC0 <= s[0] <= 0xDF && IsTail(s[1]) then 2
    else if |s| >= 3 && 0xE0 <= s[0] <= 0xEF && IsTail(s[1]) && IsTail(s[2]) then 3
    else if |s| >= 4 && 0xF0 <= s[0] <= 0xF7 && IsTail(s[1]) && IsTail(s[2]) && IsTail(s[3]) then 4
    else 1
  }

  /** What is not a character of the grammar becomes one U+FFFD: octets bound together by their patterns as a whole - an
      overlong form, a surrogate, a value too large - and any other octet by itself. */
  lemma MalformedIsReplaced(s: seq<byte>)
    requires s != [] && Utf8Char(s) == 0
    ensures DecodeUtf8(s) == Decoded(0xFFFD, PatternLength(s))
  {
    hide Accumulated;
    var n := PatternLength(s);
    if n >= 2 {
      AccumulatedParts(s, n);
      if n == 2 {
        BadValue2(s[0], s[1]);
      } else if n == 3 {
        BadValue3(s[0], s[1], s[2]);
      } else {
        BadValue4(s[0], s[1], s[2], s[3]);
      }
    }
  }

  lemma BadValue2(a: byte, b: byte)
    requires 0xC0 <= a <= 0xC1 && IsTail(b)
    ensures LeadBits(a) * 64 + b % 64 < 0x80
  {
  }

  lemma BadValue3(a: byte, b: byte, c: byte)
    requires IsTail(b) && IsTail(c) && ((a == 0xE0 && b < 0xA0) || (a == 0xED && b > 0x9F))
    ensures var v := (LeadBits(a) * 64 + b % 64) * 64 + c % 64;
      v < 0x800 || !IsScalar(v)
  {
  }

  lemma BadValue4(a: byte, b: byte, c: byte, d: byte)
    requires IsTail(b) && IsTail(c) && IsTail(d) && 0xF0 <= a <= 0xF7
    requires (a == 0xF0 && b < 0x90) || (a == 0xF4 && b > 0x8F) || a > 0xF4
    ensures var v := ((LeadBits(a) * 64 + b % 64) * 64 + c % 64) * 64 + d % 64;
      v < 0x10000 || v > 0x10FFFF
  {
  }

  // ----- whole strings -----

  /** UTF-8 to UTF-16, without the final NUL. */
  function Utf8ToUtf16(s: seq<byte>): seq<u16>
    decreases |s|
  {
    if s == [] then []
    else
      var d := DecodeUtf8(s);
      EncodeUtf16(d.c) + Utf8ToUtf16(s[d.consumed..])
  }

  /** The code point a surrogate pair stands for. */
  function Combine(high: u16, low: u16): codepoint
    requires IsHigh(high) && IsLow(low)
  {
    0x10000 + (high as int - 0xD800) * 1024 + (low as int - 0xDC00)
  }

  /** The code point at the head of a UTF-16 string, and how many units it takes; an unpaired surrogate is U+FFFD. */
  function DecodeUtf16(w: seq<u16>): (d: Decoded)
    requires w != []
    ensures 1 <= d.consumed <= |w| && d.consumed <= 2
    ensures IsScalar(d.c)
  {
    if IsHigh(w[0]) then
      if |w| >= 2 && IsLow(w[1]) then Decoded(Combine(w[0], w[1]), 2) else REPLACED
    else if IsLow(w[0]) then REPLACED
    else Decoded(w[0], 1)
  }

  function Utf16ToUtf8(w: seq<u16>): seq<byte>
    decreases |w|
  {
    if w == [] then []
    else
      var d := DecodeUtf16(w);
      EncodeUtf8(d.c) + Utf16ToUtf8(w[d.consumed..])
  }

  lemma NarrowStep(src: seq<byte>, pos: nat, d: Decoded, out: seq<u16>)
    requires pos < |src| && DecodeUtf8(src[pos..]) == d
    ensures out + Utf8ToUtf16(src[pos..]) == (out + EncodeUtf16(d.c)) + Utf8ToUtf16(src[pos + d.consumed..])
  {
    hide DecodeUtf8, EncodeUtf16;
    assert src[pos..][d.consumed..] == src[pos + d.consumed..];
    Regroup(out, EncodeUtf16(d.c), Utf8ToUtf16(src[pos + d.consumed..]));
  }

  lemma NothingToConvert()
    ensures Utf8ToUtf16([]) == []
  {
  }

  /** utf8ToWide: the units of the whole string, then a NUL. */
  method Utf8ToWide(src: seq<byte>) returns (out: seq<u16>)
    ensures out == Utf8ToUtf16(src) + [0]
  {
    hide Utf8ToUtf16, DecodeUtf8, EncodeUtf16;
    out := [];
    var pos := 0;
    assert src[0..] == src;
    NothingToConvert();
    while pos < |src|
      invariant 0 <= pos <= |src|
      invariant Utf8ToUtf16(src) == out + Utf8ToUtf16(src[pos..])
    {
      var d := DecodeAt(src, pos);
      NarrowStep(src, pos, d, out);
      out := out + EncodeUtf16(d.c);
      pos := pos + d.consumed;
    }
    assert src[pos..] == [];
    out := out + [0];
  }

  lemma WideStep(w: seq<u16>, from: nat, to: nat, c: codepoint, out: seq<byte>)
    requires from < to <= |w| && DecodeUtf16(w[from..]) == Decoded(c, to - from)
    ensures out + Utf16ToUtf8(w[from..]) == (out + EncodeUtf8(c)) + Utf16ToUtf8(w[to..])
  {
    assert w[from..][to - from..] == w[to..];
    Regroup(out, EncodeUtf8(c), Utf16ToUtf8(w[to..]));
  }

  /** wideToUtf8 of the first `len` units. */
  method WideToUtf8(src: seq<u16>, len: nat) returns (out: seq<byte>)
    requires len <= |src|
    ensures out == Utf16ToUtf8(src[..len])
  {
    out := [];
    ghost var w := src[..len];
    assert w[0..] == w;
    var i := 0;
    while i < len
      invariant 0 <= i <= len
      invariant Utf16ToUtf8(w) == out + Utf16ToUtf8(w[i..])
    {
      var unit := src[i];
      var c: codepoint;
      ghost var from := i;
      if IsHigh(unit) {
        var next := if i + 1 < len then src[i + 1] else 0;
        if IsLow(next) {
          c := Combine(unit, next);
          i := i + 1;
        } else {
          c := UNICODE_REPLACEMENT_CHARACTER;
        }
      } else if IsLow(unit) {
        c := UNICODE_REPLACEMENT_CHARACTER;
      } else {
        c := unit;
      }
      i := i + 1;
      WideStep(w, from, i, c, out);
      out := out + EncodeUtf8(c);
    }
    assert w[len..] == [];
  }

  // ----- what the conversions promise -----

  lemma DecodeOfEncodedUtf16(c: codepoint, rest: seq<u16>)
    requires IsScalar(c)
    ensures DecodeUtf16(EncodeUtf16(c) + rest) == Decoded(c, |EncodeUtf16(c)|)
    ensures (EncodeUtf16(c) + rest)[|EncodeUtf16(c)|..] == rest
    ensures IsUtf16(rest) ==> IsUtf16(EncodeUtf16(c) + rest)
  {
    var w := EncodeUtf16(c) + rest;
    assert w[|EncodeUtf16(c)|..] == rest;
    if c > 0xFFFF {
      assert w[0] == 0xD800 + (c - 0x10000) / 1024 && w[1] == 0xDC00 + (c - 0x10000) % 1024;
    } else {
      assert w[0] == c;
    }
  }

  /** Any octets at all become well-formed UTF-16. */
  lemma {:induction false} Utf16IsWellFormed(s: seq<byte>)
    ensures IsUtf16(Utf8ToUtf16(s))
    decreases |s|
  {
    if s != [] {
      var d := DecodeUtf8(s);
      Utf16IsWellFormed(s[d.consumed..]);
      DecodeOfEncodedUtf16(d.c, Utf8ToUtf16(s[d.consumed..]));
    }
  }

  /** Any 16-bit units at all become well-formed UTF-8. */
  lemma {:induction false} Utf8IsWellFormed(w: seq<u16>)
    ensures IsUtf8(Utf16ToUtf8(w))
    decreases |w|
  {
    if w != [] {
      var d := DecodeUtf16(w);
      Utf8IsWellFormed(w[d.consumed..]);
      EncodedIsChar(d.c, Utf16ToUtf8(w[d.consumed..]));
    }
  }

  /** Well-formed UTF-8 survives the trip through UTF-16. */
  lemma {:induction false} Utf8RoundTrip(s: seq<byte>)
    requires IsUtf8(s)
    ensures Utf16ToUtf8(Utf8ToUtf16(s)) == s
    decreases |s|
  {
    hide DecodeUtf8, DecodeUtf16, EncodeUtf8, EncodeUtf16;
    if s != [] {
      var d := DecodeUtf8(s);
      CharDecodes(s);
      Utf8RoundTrip(s[d.consumed..]);
      DecodeOfEncodedUtf16(d.c, Utf8ToUtf16(s[d.consumed..]));
    }
  }

  /** The string with every unpaired surrogate replaced by U+FFFD. */
  function Repair(w: seq<u16>): (r: seq<u16>)
    decreases |w|
  {
    if w == [] then []
    else if IsHigh(w[0]) && |w| >= 2 && IsLow(w[1]) then [w[0], w[1]] + Repair(w[2..])
    else if IsHigh(w[0]) || IsLow(w[0]) then [0xFFFD] + Repair(w[1..])
    else [w[0]] + Repair(w[1..])
  }

  /** Any UTF-16 comes back from UTF-8 repaired, and otherwise unchanged. */
  lemma {:induction false} Utf16RoundTrip(w: seq<u16>)
    ensures Utf8ToUtf16(Utf16ToUtf8(w)) == Repair(w)
    decreases |w|
  {
    if w != [] {
      var d := DecodeUtf16(w);
      var rest := Utf16ToUtf8(w[d.consumed..]);
      Utf16RoundTrip(w[d.consumed..]);
      DecodeOfEncoded(d.c, rest);
      EncodedIsChar(d.c, rest);
      assert Utf8ToUtf16(EncodeUtf8(d.c) + rest) == EncodeUtf16(d.c) + Utf8ToUtf16(rest);
      if d.consumed == 2 {
        PairOfCode(w[0], w[1]);
      }
    }
  }

  lemma PairOfCode(high: u16, low: u16)
    requires IsHigh(high) && IsLow(low)
    ensures EncodeUtf16(Combine(high, low)) == [high, low]
  {
    var v := Combine(high, low) - 0x10000;
    assert v / 1024 == high as int - 0xD800 && v % 1024 == low as int - 0xDC00;
  }

  /** Repairing changes nothing exactly when nothing is unpaired, and never changes the length. */
  lemma {:induction false} RepairIsExact(w: seq<u16>)
    ensures |Repair(w)| == |w| && (Repair(w) == w <==> IsUtf16(w))
    decreases |w|
  {
    if w != [] {
      var n := DecodeUtf16(w).consumed;
      RepairIsExact(w[n..]);
      assert Repair(w)[n..] == Repair(w[n..]) && Repair(w)[..n] == if n == 2 then w[..2] else [Repair(w)[0]];
      if Repair(w) == w {
        assert Repair(w)[n..] == w[n..];
      }
    }
  }
}
