/** UTF-8 validation and decoding of a byte string (what Rust's
    `str::from_utf8` does for `Password::as_str`), with the encoder it
    inverts. A byte string decodes when it is a concatenation of shortest
    encodings of Unicode scalar values. */
module Utf8 {
  import opened Io
  import opened Wrappers

  /** The decoding failed; the bytes before `validUpTo` are valid UTF-8. */
  datatype Utf8Error = Utf8Error(validUpTo: nat)

  /** A continuation byte `10xxxxxx`. */
  predicate IsContinuation(b: byte) {
    0x80 <= b < 0xC0
  }

  /** The second byte of a three-byte sequence led by `b0`: continuation
      bytes, narrowed after 0xE0 (no overlong forms) and 0xED (no
      surrogates). */
  predicate SecondOfThree(b0: byte, b1: byte) {
    if b0 == 0xE0 then 0xA0 <= b1 < 0xC0
    else if b0 == 0xED then 0x80 <= b1 < 0xA0
    else IsContinuation(b1)
  }

  /** The second byte of a four-byte sequence led by `b0`: continuation
      bytes, narrowed after 0xF0 (no overlong forms) and 0xF4 (nothing above
      U+10FFFF). */
  predicate SecondOfFour(b0: byte, b1: byte) {
    if b0 == 0xF0 then 0x90 <= b1 < 0xC0
    else if b0 == 0xF4 then 0x80 <= b1 < 0x90
    else IsContinuation(b1)
  }

  /** The scalar value of a well-formed two-byte sequence. */
  function Value2(b0: byte, b1: byte): (v: int)
    requires 0xC2 <= b0 < 0xE0 && IsContinuation(b1)
    ensures 0x80 <= v < 0x800
  {
    (b0 as int - 0xC0) * 64 + (b1 as int - 0x80)
  }

  /** The scalar value of a well-formed three-byte sequence: never a
      surrogate, never an overlong form. */
  function Value3(b0: byte, b1: byte, b2: byte): (v: int)
    requires 0xE0 <= b0 < 0xF0 && SecondOfThree(b0, b1) && IsContinuation(b2)
    ensures 0x800 <= v < 0x10000 && !(0xD800 <= v < 0xE000)
  {
    (b0 as int - 0xE0) * 4096 + (b1 as int - 0x80) * 64 + (b2 as int - 0x80)
  }

  /** The scalar value of a well-formed four-byte sequence: at most
      U+10FFFF, never an overlong form. */
  function Value4(b0: byte, b1: byte, b2: byte, b3: byte): (v: int)
    requires 0xF0 <= b0 < 0xF5 && SecondOfFour(b0, b1) && IsContinuation(b2) && IsContinuation(b3)
    ensures 0x10000 <= v < 0x110000
  {
    (b0 as int - 0xF0) * 262144 + (b1 as int - 0x80) * 4096 + (b2 as int - 0x80) * 64 + (b3 as int - 0x80)
  }

  predicate Leads2(s: seq<byte>) {
    |s| >= 2 && 0xC2 <= s[0] < 0xE0 && IsContinuation(s[1])
  }

  predicate Leads3(s: seq<byte>) {
    |s| >= 3 && 0xE0 <= s[0] < 0xF0 && SecondOfThree(s[0], s[1]) && IsContinuation(s[2])
  }

  predicate Leads4(s: seq<byte>) {
    |s| >= 4 && 0xF0 <= s[0] < 0xF5 && SecondOfFour(s[0], s[1]) && IsContinuation(s[2]) && IsContinuation(s[3])
  }

  /** The first character of `s` and the number of bytes encoding it, or
      None when `s` does not start with a complete, well-formed sequence. */
  function DecodeFirst(s: seq<byte>): (r: Option<(char, nat)>)
    ensures r.Some? ==> 1 <= r.value.1 <= 4 && r.value.1 <= |s|
  {
    if |s| == 0 then None
    else if s[0] < 0x80 then Some((s[0] as char, 1))
    else if Leads2(s) then Some((Value2(s[0], s[1]) as char, 2))
    else if Leads3(s) then Some((Value3(s[0], s[1], s[2]) as char, 3))
    else if Leads4(s) then Some((Value4(s[0], s[1], s[2], s[3]) as char, 4))
    else None
  }

  /** Decodes the whole of `s`, or reports where the first bad sequence
      starts. */
  function Decode(s: seq<byte>): (r: Result<string, Utf8Error>)
    ensures r.Err? ==> r.error.validUpTo < |s|
    decreases |s|
  {
    if |s| == 0 then Ok([])
    else
      match DecodeFirst(s)
      case None => Err(Utf8Error(0))
      case Some((c, n)) =>
        match Decode(s[n..])
        case Ok(cs) => Ok([c] + cs)
        case Err(e) => Err(Utf8Error(e.validUpTo + n))
  }

  /** The shortest UTF-8 encoding of one character. */
  function EncodeChar(c: char): (r: seq<byte>)
    ensures 1 <= |r| <= 4
  {
    var v := c as int;
    if v < 0x80 then [v]
    else if v < 0x800 then [0xC0 + v / 64, 0x80 + v % 64]
    else if v < 0x10000 then [0xE0 + v / 4096, 0x80 + (v / 64) % 64, 0x80 + v % 64]
    else [0xF0 + v / 262144, 0x80 + (v / 4096) % 64, 0x80 + (v / 64) % 64, 0x80 + v % 64]
  }

  function Encode(cs: string): seq<byte>
  {
    if |cs| == 0 then [] else EncodeChar(cs[0]) + Encode(cs[1..])
  }

  /** Decoding inverts encoding, one character at a time. */
  lemma DecodeFirstOfEncodeChar(c: char, rest: seq<byte>)
    ensures DecodeFirst(EncodeChar(c) + rest) == Some((c, |EncodeChar(c)|))
  {
    var v := c as int;
    var s := EncodeChar(c) + rest;
    if v < 0x80 {
    } else if v < 0x800 {
      SplitTwo(v);
      assert Leads2(s) && Value2(s[0], s[1]) == v;
    } else if v < 0x10000 {
      SplitThree(v);
      assert !Leads2(s);
      assert Leads3(s) && Value3(s[0], s[1], s[2]) == v;
    } else {
      SplitFour(v);
      assert !Leads2(s) && !Leads3(s);
      assert Leads4(s) && Value4(s[0], s[1], s[2], s[3]) == v;
    }
  }

  /** Every character string survives an encode/decode round trip. */
  lemma {:induction false} DecodeEncode(cs: string)
    ensures Decode(Encode(cs)) == Ok(cs)
  {
    if |cs| > 0 {
      var e := EncodeChar(cs[0]);
      var s := Encode(cs);
      assert s == e + Encode(cs[1..]);
      DecodeFirstOfEncodeChar(cs[0], Encode(cs[1..]));
      assert s[|e|..] == Encode(cs[1..]);
      DecodeEncode(cs[1..]);
      assert [cs[0]] + cs[1..] == cs;
    }
  }

  /** The bytes a decoded character came from are its encoding. */
  lemma EncodeCharOfDecodeFirst(s: seq<byte>)
    requires DecodeFirst(s).Some?
    ensures EncodeChar(DecodeFirst(s).value.0) == s[..DecodeFirst(s).value.1]
  {
    if s[0] < 0x80 {
    } else if Leads2(s) {
      EncodeValue2(s[0], s[1]);
    } else if Leads3(s) {
      EncodeValue3(s[0], s[1], s[2]);
    } else {
      EncodeValue4(s[0], s[1], s[2], s[3]);
    }
  }

  lemma EncodeValue2(b0: byte, b1: byte)
    requires 0xC2 <= b0 < 0xE0 && IsContinuation(b1)
    ensures EncodeChar(Value2(b0, b1) as char) == [b0, b1]
  {
    JoinTwo(b0 as int - 0xC0, b1 as int - 0x80);
  }

  lemma EncodeValue3(b0: byte, b1: byte, b2: byte)
    requires 0xE0 <= b0 < 0xF0 && SecondOfThree(b0, b1) && IsContinuation(b2)
    ensures EncodeChar(Value3(b0, b1, b2) as char) == [b0, b1, b2]
  {
    JoinThree(b0 as int - 0xE0, b1 as int - 0x80, b2 as int - 0x80);
  }

  lemma EncodeValue4(b0: byte, b1: byte, b2: byte, b3: byte)
    requires 0xF0 <= b0 < 0xF5 && SecondOfFour(b0, b1) && IsContinuation(b2) && IsContinuation(b3)
    ensures EncodeChar(Value4(b0, b1, b2, b3) as char) == [b0, b1, b2, b3]
  {
    JoinFour(b0 as int - 0xF0, b1 as int - 0x80, b2 as int - 0x80, b3 as int - 0x80);
  }

  // Arithmetic of the six-bit groups of a scalar value.

  lemma SplitTwo(v: int)
    requires 0 <= v
    ensures v == (v / 64) * 64 + v % 64
  {
  }

  lemma SplitThree(v: int)
    requires 0 <= v
    ensures v == (v / 4096) * 4096 + ((v / 64) % 64) * 64 + v % 64
  {
    assert v / 64 == (v / 4096) * 64 + (v / 64) % 64;
  }

  lemma SplitFour(v: int)
    requires 0 <= v
    ensures v == (v / 262144) * 262144 + ((v / 4096) % 64) * 4096 + ((v / 64) % 64) * 64 + v % 64
  {
    assert v / 4096 == (v / 262144) * 64 + (v / 4096) % 64;
    SplitThree(v);
  }

  lemma JoinTwo(a: int, b: int)
    requires 0 <= a && 0 <= b < 64
    ensures (a * 64 + b) / 64 == a && (a * 64 + b) % 64 == b
  {
  }

  lemma JoinThree(a: int, b: int, c: int)
    requires 0 <= a && 0 <= b < 64 && 0 <= c < 64
    ensures (a * 4096 + b * 64 + c) / 4096 == a
    ensures ((a * 4096 + b * 64 + c) / 64) % 64 == b
    ensures (a * 4096 + b * 64 + c) % 64 == c
  {
    JoinTwo(a * 64 + b, c);
    JoinTwo(a, b);
    assert a * 4096 + b * 64 + c == (a * 64 + b) * 64 + c;
  }

  lemma JoinFour(a: int, b: int, c: int, d: int)
    requires 0 <= a && 0 <= b < 64 && 0 <= c < 64 && 0 <= d < 64
    ensures (a * 262144 + b * 4096 + c * 64 + d) / 262144 == a
    ensures ((a * 262144 + b * 4096 + c * 64 + d) / 4096) % 64 == b
    ensures ((a * 262144 + b * 4096 + c * 64 + d) / 64) % 64 == c
    ensures (a * 262144 + b * 4096 + c * 64 + d) % 64 == d
  {
    JoinThree(a * 64 + b, c, d);
    JoinTwo(a, b);
    assert a * 262144 + b * 4096 + c * 64 + d == (a * 64 + b) * 4096 + c * 64 + d;
    assert (a * 64 + b) * 4096 + c * 64 + d < (a * 64 + b + 1) * 4096;
  }

  /** A byte string that decodes is the encoding of what it decodes to. */
  lemma {:induction false} EncodeDecode(s: seq<byte>)
    requires Decode(s).Ok?
    ensures Encode(Decode(s).value) == s
    decreases |s|
  {
    if |s| > 0 {
      var (c, n) := DecodeFirst(s).value;
      var rest := s[n..];
      DecodeOk(s);
      var cs := Decode(s).value;
      EncodeCharOfDecodeFirst(s);
      EncodeDecode(rest);
      assert cs[0] == c && cs[1..] == Decode(rest).value;
      assert Encode(cs) == s[..n] + rest;
      assert s == s[..n] + rest;
    }
  }

  /** A successful decoding is its first character followed by the
      decoding of the rest. */
  lemma DecodeOk(s: seq<byte>)
    requires Decode(s).Ok? && |s| > 0
    ensures DecodeFirst(s).Some?
    ensures Decode(s[DecodeFirst(s).value.1..]).Ok?
    ensures Decode(s).value == [DecodeFirst(s).value.0] + Decode(s[DecodeFirst(s).value.1..]).value
  {
  }

  /** The first character only depends on the bytes that encode it. */
  lemma DecodeFirstOfPrefix(s: seq<byte>, k: nat)
    requires DecodeFirst(s).Some? && DecodeFirst(s).value.1 <= k <= |s|
    ensures DecodeFirst(s[..k]) == DecodeFirst(s)
  {
  }

  /** As Rust documents for `Utf8Error::valid_up_to`: the bytes before the
      reported position decode. */
  lemma {:induction false} ValidUpToIsValid(s: seq<byte>)
    requires Decode(s).Err?
    ensures Decode(s[..Decode(s).error.validUpTo]).Ok?
    decreases |s|
  {
    if DecodeFirst(s).Some? {
      var k := Decode(s).error.validUpTo;
      var (c, n) := DecodeFirst(s).value;
      ValidUpToIsValid(s[n..]);
      var k' := Decode(s[n..]).error.validUpTo;
      assert k == k' + n;
      DecodeFirstOfPrefix(s, k);
      assert s[..k][n..] == s[n..][..k'];
    }
  }

  /** A well-formed sequence in the first bytes stays the first character
      whatever follows them. */
  lemma DecodeFirstOfExtension(s: seq<byte>, j: nat)
    requires j <= |s| && DecodeFirst(s[..j]).Some?
    ensures DecodeFirst(s) == DecodeFirst(s[..j])
  {
  }

  /** As Rust documents for `Utf8Error::valid_up_to`: the valid prefix is
      the longest one, since every longer prefix fails to decode. */
  lemma {:induction false} ValidUpToIsLongest(s: seq<byte>, j: nat)
    requires Decode(s).Err?
    requires Decode(s).error.validUpTo < j <= |s|
    ensures Decode(s[..j]).Err?
    decreases |s|
  {
    match DecodeFirst(s)
    case None =>
      if DecodeFirst(s[..j]).Some? {
        DecodeFirstOfExtension(s, j);
      }
    case Some((c, n)) =>
      DecodeFirstOfPrefix(s, j);
      ValidUpToIsLongest(s[n..], j - n);
      assert s[..j][n..] == s[n..][..j - n];
  }
}
