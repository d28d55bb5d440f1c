/**
 * The "base64" encoding of section 4 of RFC 4648: the 64-symbol alphabet of Table 1 and `=`
 * padding.  Decoding is the strict form of the RFC: the text is a whole number of 4-symbol
 * quanta, every symbol is in the alphabet, and padding appears only at the very end, as `x==`
 * or `xx=` in the final quantum.  Like CPython, it does not insist that the pad bits be zero.
 */
module Base64 {
  import opened Wrappers
  import opened Text

  const PAD: CodePoint := 0x3D

  /** The symbol of a 6-bit value (Table 1 of RFC 4648). */
  function Symbol(v: int): (c: CodePoint)
    requires 0 <= v < 64
    ensures c != PAD && c != DOT
  {
    if v < 26 then 0x41 + v
    else if v < 52 then 0x61 + (v - 26)
    else if v < 62 then 0x30 + (v - 52)
    else if v == 62 then 0x2B
    else SLASH
  }

  /** The 6-bit value of a symbol of the alphabet, `None` for any other code point. */
  function Value(c: CodePoint): (r: Option<int>)
    ensures r.Some? ==> 0 <= r.value < 64 && Symbol(r.value) == c
  {
    if 0x41 <= c <= 0x5A then Some(c - 0x41)
    else if 0x61 <= c <= 0x7A then Some(c - 0x61 + 26)
    else if 0x30 <= c <= 0x39 then Some(c - 0x30 + 52)
    else if c == 0x2B then Some(62)
    else if c == SLASH then Some(63)
    else None
  }

  lemma ValueOfSymbol(v: int)
    requires 0 <= v < 64
    ensures Value(Symbol(v)) == Some(v)
  {
  }

  /** Section 4 of RFC 4648: each 3 octets become 4 symbols; a final 1 or 2 octets are padded. */
  function Encode(b: seq<Byte>): (r: PyStr)
    ensures |r| == (|b| + 2) / 3 * 4
    decreases |b|
  {
    if |b| == 0 then []
    else if |b| == 1 then [Symbol(b[0] / 4), Symbol(b[0] % 4 * 16), PAD, PAD]
    else if |b| == 2 then [Symbol(b[0] / 4), Symbol(b[0] % 4 * 16 + b[1] / 16), Symbol(b[1] % 16 * 4), PAD]
    else Quantum(b[0], b[1], b[2]) + Encode(b[3..])
  }

  /** The four symbols of three octets. */
  function Quantum(b0: Byte, b1: Byte, b2: Byte): (q: PyStr)
    ensures |q| == 4 && q[3] != PAD
  {
    [Symbol(b0 / 4), Symbol(b0 % 4 * 16 + b1 / 16), Symbol(b1 % 16 * 4 + b2 / 64), Symbol(b2 % 64)]
  }

  /** Four symbols without padding: three octets. */
  function DecodeQuantum(q: PyStr): (r: Option<seq<Byte>>)
    requires |q| == 4
    ensures r.Some? ==> |r.value| == 3
  {
    match (Value(q[0]), Value(q[1]), Value(q[2]), Value(q[3]))
    case (Some(v0), Some(v1), Some(v2), Some(v3)) =>
      Some([v0 * 4 + v1 / 16, v1 % 16 * 16 + v2 / 4, v2 % 4 * 64 + v3])
    case _ => None
  }

  /** The last quantum, which may end in `==` (one octet) or `=` (two octets). */
  function DecodeFinalQuantum(q: PyStr): (r: Option<seq<Byte>>)
    requires |q| == 4
    ensures r.Some? ==> 1 <= |r.value| <= 3
  {
    if q[2] == PAD && q[3] == PAD then
      match (Value(q[0]), Value(q[1]))
      case (Some(v0), Some(v1)) => Some([v0 * 4 + v1 / 16])
      case _ => None
    else if q[3] == PAD then
      match (Value(q[0]), Value(q[1]), Value(q[2]))
      case (Some(v0), Some(v1), Some(v2)) => Some([v0 * 4 + v1 / 16, v1 % 16 * 16 + v2 / 4])
      case _ => None
    else DecodeQuantum(q)
  }

  /** Strict decoding: `None` for text that is not a padded sequence of whole quanta. */
  function Decode(s: PyStr): (r: Option<seq<Byte>>)
    decreases |s|
  {
    if s == [] then Some([])
    else if |s| < 4 then None
    else if |s| == 4 then DecodeFinalQuantum(s)
    else match DecodeQuantum(s[..4])
      case None => None
      case Some(head) =>
        match Decode(s[4..])
        case None => None
        case Some(tail) => Some(head + tail)
  }

  /** Text whose length is not a multiple of 4 never decodes. */
  lemma {:induction false} DecodeRejectsPartialQuantum(s: PyStr)
    requires |s| % 4 != 0
    ensures Decode(s).None?
    decreases |s|
  {
    if |s| > 4 {
      DecodeRejectsPartialQuantum(s[4..]);
    }
  }

  lemma DecodeQuantumOfQuantum(b0: Byte, b1: Byte, b2: Byte)
    ensures DecodeQuantum(Quantum(b0, b1, b2)) == Some([b0, b1, b2])
  {
    DecodeSymbols(b0 / 4, b0 % 4 * 16 + b1 / 16, b1 % 16 * 4 + b2 / 64, b2 % 64);
    RegroupBits(b0, b1, b2);
  }

  /** Four symbols decode to the octets their 6-bit values regroup into. */
  lemma DecodeSymbols(v0: int, v1: int, v2: int, v3: int)
    requires 0 <= v0 < 64 && 0 <= v1 < 64 && 0 <= v2 < 64 && 0 <= v3 < 64
    ensures DecodeQuantum([Symbol(v0), Symbol(v1), Symbol(v2), Symbol(v3)])
      == Some([v0 * 4 + v1 / 16, v1 % 16 * 16 + v2 / 4, v2 % 4 * 64 + v3])
  {
    ValueOfSymbol(v0); ValueOfSymbol(v1); ValueOfSymbol(v2); ValueOfSymbol(v3);
  }

  /** Regrouping three octets into four 6-bit values and back gives the octets. */
  lemma RegroupBits(b0: Byte, b1: Byte, b2: Byte)
    ensures (b0 / 4) * 4 + (b0 % 4 * 16 + b1 / 16) / 16 == b0
    ensures (b0 % 4 * 16 + b1 / 16) % 16 * 16 + (b1 % 16 * 4 + b2 / 64) / 4 == b1
    ensures (b1 % 16 * 4 + b2 / 64) % 4 * 64 + b2 % 64 == b2
  {
    assert (b0 % 4 * 16 + b1 / 16) / 16 == b0 % 4 && (b0 % 4 * 16 + b1 / 16) % 16 == b1 / 16;
    assert (b1 % 16 * 4 + b2 / 64) / 4 == b1 % 16 && (b1 % 16 * 4 + b2 / 64) % 4 == b2 / 64;
  }

  lemma DecodeEncodeOne(b0: Byte)
    ensures Decode(Encode([b0])) == Some([b0])
  {
    var v0, v1 := b0 / 4, b0 % 4 * 16;
    ValueOfSymbol(v0); ValueOfSymbol(v1);
  }

  lemma DecodeEncodeTwo(b0: Byte, b1: Byte)
    ensures Decode(Encode([b0, b1])) == Some([b0, b1])
  {
    var v0, v1, v2 := b0 / 4, b0 % 4 * 16 + b1 / 16, b1 % 16 * 4;
    ValueOfSymbol(v0); ValueOfSymbol(v1); ValueOfSymbol(v2);
    assert v1 / 16 == b0 % 4 && v1 % 16 == b1 / 16 && v2 / 4 == b1 % 16;
  }

  /** Round trip: decoding an encoding gives back the octets. */
  lemma {:induction false} DecodeEncode(b: seq<Byte>)
    ensures Decode(Encode(b)) == Some(b)
    decreases |b|
  {
    if |b| == 1 {
      DecodeEncodeOne(b[0]);
      assert b == [b[0]];
    } else if |b| == 2 {
      DecodeEncodeTwo(b[0], b[1]);
      assert b == [b[0], b[1]];
    } else if |b| >= 3 {
      var q, rest := Quantum(b[0], b[1], b[2]), Encode(b[3..]);
      DecodeQuantumOfQuantum(b[0], b[1], b[2]);
      assert Encode(b) == q + rest;
      if |b| == 3 {
        assert rest == [] && q + rest == q;
        assert Decode(q) == DecodeFinalQuantum(q) == DecodeQuantum(q);
        assert b == [b[0], b[1], b[2]];
      } else {
        assert (q + rest)[..4] == q && (q + rest)[4..] == rest;
        DecodeEncode(b[3..]);
        assert b == [b[0], b[1], b[2]] + b[3..];
      }
    }
  }

  /** Octets in whole groups of three encode independently of what follows them. */
  lemma {:induction false} EncodeAppend(a: seq<Byte>, b: seq<Byte>)
    requires |a| % 3 == 0
    ensures Encode(a + b) == Encode(a) + Encode(b)
    decreases |a|
  {
    if a == [] {
      assert a + b == b;
    } else {
      assert (a + b)[3..] == a[3..] + b;
      EncodeAppend(a[3..], b);
    }
  }

  /** An encoding uses only alphabet symbols and `=`, so never a `.`. */
  lemma {:induction false} EncodeHasNoDot(b: seq<Byte>)
    ensures DOT !in Encode(b)
    decreases |b|
  {
    if |b| >= 3 {
      EncodeHasNoDot(b[3..]);
    }
  }
}
