/**
 * UTF-8 as RFC 3629 defines it and CPython's codec implements it: `str.encode("utf-8",
 * errors="ignore")`, which drops the code points UTF-8 cannot carry (lone surrogates), and the
 * strict `bytes.decode("utf-8")`, which accepts exactly the well-formed byte sequences of
 * section 4 of RFC 3629 and fails on anything else.
 */
module Utf8 {
  import opened Wrappers
  import opened Text

  predicate IsContinuation(b: Byte) {
    0x80 <= b < 0xC0
  }

  /** The one to four octets of a scalar value (section 3 of RFC 3629). */
  function EncodeScalar(c: CodePoint): (r: seq<Byte>)
    requires !IsSurrogate(c)
    ensures 1 <= |r| <= 4
  {
    if c < 0x80 then [c]
    else if c < 0x800 then [0xC0 + c / 64, 0x80 + c % 64]
    else if c < 0x1_0000 then [0xE0 + c / 4096, 0x80 + (c / 64) % 64, 0x80 + c % 64]
    else [0xF0 + c / 0x4_0000, 0x80 + (c / 4096) % 64, 0x80 + (c / 64) % 64, 0x80 + c % 64]
  }

  /** `s.encode("utf-8", errors="ignore")`: surrogates are skipped, everything else encoded in order. */
  function EncodeIgnore(s: PyStr): seq<Byte>
  {
    if s == [] then []
    else (if IsSurrogate(s[0]) then [] else EncodeScalar(s[0])) + EncodeIgnore(s[1..])
  }

  /**
   * The first character of a non-empty byte sequence and the number of octets it takes, if
   * they form one of the well-formed sequences of the syntax in section 4 of RFC 3629
   * (no overlong forms, no surrogates, nothing above U+10FFFF).
   */
  function DecodeFirst(b: seq<Byte>): (r: Option<(CodePoint, nat)>)
    requires b != []
    ensures r.Some? ==> 1 <= r.value.1 <= |b| && !IsSurrogate(r.value.0)
  {
    var b0, n := b[0] as int, |b|;
    if b0 < 0x80 then Some((b0, 1))
    else if 0xC2 <= b0 <= 0xDF then
      if n >= 2 && IsContinuation(b[1])
      then Some(((b0 - 0xC0) * 64 + (b[1] as int - 0x80), 2))
      else None
    else if 0xE0 <= b0 <= 0xEF then
      var lo := if b0 == 0xE0 then 0xA0 else 0x80;
      var hi := if b0 == 0xED then 0x9F else 0xBF;
      if n >= 3 && lo <= b[1] <= hi && IsContinuation(b[2])
      then Some(((b0 - 0xE0) * 4096 + (b[1] as int - 0x80) * 64 + (b[2] as int - 0x80), 3))
      else None
    else if 0xF0 <= b0 <= 0xF4 then
      var lo := if b0 == 0xF0 then 0x90 else 0x80;
      var hi := if b0 == 0xF4 then 0x8F else 0xBF;
      if n >= 4 && lo <= b[1] <= hi && IsContinuation(b[2]) && IsContinuation(b[3])
      then Some(((b0 - 0xF0) * 0x4_0000 + (b[1] as int - 0x80) * 4096 + (b[2] as int - 0x80) * 64
                 + (b[3] as int - 0x80), 4))
      else None
    else None
  }

  /** `b.decode("utf-8")`: `None` where CPython raises `UnicodeDecodeError`. */
  function Decode(b: seq<Byte>): (r: Option<PyStr>)
    ensures r.Some? ==> WellFormed(r.value)
    decreases |b|
  {
    if b == [] then Some([])
    else match DecodeFirst(b)
      case None => None
      case Some((c, n)) =>
        match Decode(b[n..])
        case None => None
        case Some(rest) => Some([c] + rest)
  }

  /** Decoding the encoding of one scalar value gives it back and consumes exactly its octets. */
  lemma DecodeFirstEncodeScalar(c: CodePoint, rest: seq<Byte>)
    requires !IsSurrogate(c)
    ensures DecodeFirst(EncodeScalar(c) + rest) == Some((c, |EncodeScalar(c)|))
  {
    if c < 0x80 {
    } else if c < 0x800 {
      DecodeTwo(c, rest);
    } else if c < 0x1_0000 {
      DecodeThree(c, rest);
    } else {
      DecodeFour(c, rest);
    }
  }

  lemma DecodeTwo(c: CodePoint, rest: seq<Byte>)
    requires 0x80 <= c < 0x800
    ensures DecodeFirst(EncodeScalar(c) + rest) == Some((c, 2))
  {
    var x0, x1 := c / 64, c % 64;
    assert c == x0 * 64 + x1;
    var b := EncodeScalar(c) + rest;
    assert b[0] == 0xC0 + x0 && b[1] == 0x80 + x1;
  }

  lemma DecodeThree(c: CodePoint, rest: seq<Byte>)
    requires 0x800 <= c < 0x1_0000 && !IsSurrogate(c)
    ensures DecodeFirst(EncodeScalar(c) + rest) == Some((c, 3))
  {
    var x0, x1, x2 := c / 4096, (c / 64) % 64, c % 64;
    assert c / 64 == x0 * 64 + x1;
    assert c == x0 * 4096 + x1 * 64 + x2;
    var b := EncodeScalar(c) + rest;
    assert b[0] == 0xE0 + x0 && b[1] == 0x80 + x1 && b[2] == 0x80 + x2;
  }

  lemma DecodeFour(c: CodePoint, rest: seq<Byte>)
    requires 0x1_0000 <= c
    ensures DecodeFirst(EncodeScalar(c) + rest) == Some((c, 4))
  {
    var x0, x1, x2, x3 := c / 0x4_0000, (c / 4096) % 64, (c / 64) % 64, c % 64;
    assert c / 4096 == x0 * 64 + x1;
    assert c / 64 == (c / 4096) * 64 + x2;
    assert c == x0 * 0x4_0000 + x1 * 4096 + x2 * 64 + x3;
    var b := EncodeScalar(c) + rest;
    assert b[0] == 0xF0 + x0 && b[1] == 0x80 + x1 && b[2] == 0x80 + x2 && b[3] == 0x80 + x3;
  }

  lemma {:induction false} EncodeIgnoreAppend(a: PyStr, b: PyStr)
    ensures EncodeIgnore(a + b) == EncodeIgnore(a) + EncodeIgnore(b)
  {
    if a == [] {
      assert a + b == b;
    } else {
      assert (a + b)[1..] == a[1..] + b;
      EncodeIgnoreAppend(a[1..], b);
    }
  }

  /** Round trip: the strict decoder inverts the encoder on every string without surrogates. */
  lemma {:induction false} DecodeEncode(s: PyStr)
    requires WellFormed(s)
    ensures Decode(EncodeIgnore(s)) == Some(s)
  {
    if s != [] {
      var e := EncodeScalar(s[0]);
      var rest := EncodeIgnore(s[1..]);
      assert EncodeIgnore(s) == e + rest;
      DecodeFirstEncodeScalar(s[0], rest);
      assert (e + rest)[|e|..] == rest;
      DecodeEncode(s[1..]);
      assert s == [s[0]] + s[1..];
    }
  }

  /**
   * The strict decoder accepts nothing but encodings: whatever it decodes is the UTF-8 of the
   * result, so overlong forms, encoded surrogates and values above U+10FFFF are refused.
   */
  lemma {:induction false} EncodeDecode(b: seq<Byte>)
    ensures Decode(b).Some? ==> EncodeIgnore(Decode(b).value) == b
    decreases |b|
  {
    if b != [] && Decode(b).Some? {
      var c, n, rest := DecodeStep(b);
      EncodeDecode(b[n..]);
      SplitAt(b, n, EncodeIgnore(rest));
    }
  }

  lemma SplitAt(b: seq<Byte>, n: nat, tail: seq<Byte>)
    requires n <= |b| && tail == b[n..]
    ensures b[..n] + tail == b
  {
  }

  /**
   * A successful decoding is a first character, whose encoding is the octets it was decoded
   * from, followed by the decoding of the octets after them.
   */
  lemma DecodeStep(b: seq<Byte>) returns (c: CodePoint, n: nat, rest: PyStr)
    requires b != [] && Decode(b).Some?
    ensures 1 <= n <= |b| && Decode(b[n..]) == Some(rest) && Decode(b) == Some([c] + rest)
    ensures EncodeIgnore([c] + rest) == b[..n] + EncodeIgnore(rest)
  {
    c, n := DecodeFirst(b).value.0, DecodeFirst(b).value.1;
    rest := Decode(b[n..]).value;
    EncodeDecodeFirst(b);
    EncodeIgnoreCons(c, rest);
  }

  lemma EncodeIgnoreCons(c: CodePoint, rest: PyStr)
    requires !IsSurrogate(c)
    ensures EncodeIgnore([c] + rest) == EncodeScalar(c) + EncodeIgnore(rest)
  {
    assert ([c] + rest)[1..] == rest;
  }

  /** The octets `DecodeFirst` consumes are the encoding of the character it returns. */
  lemma EncodeDecodeFirst(b: seq<Byte>)
    requires b != [] && DecodeFirst(b).Some?
    ensures EncodeScalar(DecodeFirst(b).value.0) == b[..DecodeFirst(b).value.1]
  {
    var b0 := b[0] as int;
    if 0xC2 <= b0 <= 0xDF {
      ScalarOfTwo(b);
    } else if 0xE0 <= b0 <= 0xEF {
      ScalarOfThree(b);
    } else if 0xF0 <= b0 <= 0xF4 {
      ScalarOfFour(b);
    }
  }

  lemma ScalarOfTwo(b: seq<Byte>)
    requires |b| >= 2 && 0xC2 <= b[0] <= 0xDF && IsContinuation(b[1])
    ensures EncodeScalar((b[0] as int - 0xC0) * 64 + (b[1] as int - 0x80)) == b[..2]
  {
    EncodeTwo(b[0] as int - 0xC0, b[1] as int - 0x80);
  }

  lemma ScalarOfThree(b: seq<Byte>)
    requires |b| >= 3 && 0xE0 <= b[0] <= 0xEF && IsContinuation(b[1]) && IsContinuation(b[2])
    requires b[0] == 0xE0 ==> 0xA0 <= b[1]
    requires b[0] == 0xED ==> b[1] <= 0x9F
    ensures !IsSurrogate((b[0] as int - 0xE0) * 4096 + (b[1] as int - 0x80) * 64 + (b[2] as int - 0x80))
    ensures EncodeScalar((b[0] as int - 0xE0) * 4096 + (b[1] as int - 0x80) * 64 + (b[2] as int - 0x80)) == b[..3]
  {
    EncodeThree(b[0] as int - 0xE0, b[1] as int - 0x80, b[2] as int - 0x80);
  }

  lemma ScalarOfFour(b: seq<Byte>)
    requires |b| >= 4 && 0xF0 <= b[0] <= 0xF4 && IsContinuation(b[1]) && IsContinuation(b[2]) && IsContinuation(b[3])
    requires b[0] == 0xF0 ==> 0x90 <= b[1]
    requires b[0] == 0xF4 ==> b[1] <= 0x8F
    ensures EncodeScalar((b[0] as int - 0xF0) * 0x4_0000 + (b[1] as int - 0x80) * 4096 + (b[2] as int - 0x80) * 64
                         + (b[3] as int - 0x80)) == b[..4]
  {
    EncodeFour(b[0] as int - 0xF0, b[1] as int - 0x80, b[2] as int - 0x80, b[3] as int - 0x80);
  }

  lemma EncodeTwo(x0: int, x1: int)
    requires 2 <= x0 < 32 && 0 <= x1 < 64
    ensures (x0 * 64 + x1) / 64 == x0 && (x0 * 64 + x1) % 64 == x1
  {
  }

  lemma EncodeThree(x0: int, x1: int, x2: int)
    requires 0 <= x0 < 16 && 0 <= x1 < 64 && 0 <= x2 < 64
    ensures (x0 * 4096 + x1 * 64 + x2) / 4096 == x0
    ensures ((x0 * 4096 + x1 * 64 + x2) / 64) % 64 == x1 && (x0 * 4096 + x1 * 64 + x2) % 64 == x2
  {
    var c := x0 * 4096 + x1 * 64 + x2;
    assert c == (x0 * 64 + x1) * 64 + x2;
    assert c / 64 == x0 * 64 + x1;
  }

  lemma EncodeFour(x0: int, x1: int, x2: int, x3: int)
    requires 0 <= x0 < 8 && 0 <= x1 < 64 && 0 <= x2 < 64 && 0 <= x3 < 64
    ensures (x0 * 0x4_0000 + x1 * 4096 + x2 * 64 + x3) / 0x4_0000 == x0
    ensures ((x0 * 0x4_0000 + x1 * 4096 + x2 * 64 + x3) / 4096) % 64 == x1
    ensures ((x0 * 0x4_0000 + x1 * 4096 + x2 * 64 + x3) / 64) % 64 == x2
    ensures (x0 * 0x4_0000 + x1 * 4096 + x2 * 64 + x3) % 64 == x3
  {
    var c := x0 * 0x4_0000 + x1 * 4096 + x2 * 64 + x3;
    assert c == ((x0 * 64 + x1) * 64 + x2) * 64 + x3;
    assert c / 64 == (x0 * 64 + x1) * 64 + x2;
    assert c / 4096 == x0 * 64 + x1;
  }

  /** The surrogates that `errors="ignore"` skips contribute nothing to the encoding. */
  lemma {:induction false} EncodeIgnoreSkipsSurrogates(s: PyStr)
    ensures EncodeIgnore(s) == EncodeIgnore(WithoutSurrogates(s))
  {
    if s != [] {
      EncodeIgnoreSkipsSurrogates(s[1..]);
      var head := if IsSurrogate(s[0]) then [] else [s[0]];
      EncodeIgnoreAppend(head, WithoutSurrogates(s[1..]));
      if !IsSurrogate(s[0]) {
        assert head[1..] == [];
      }
    }
  }
}
