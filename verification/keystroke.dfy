/** `Keystroke` (src/lib.rs): the four bytes of one read from a terminal in
    raw mode, and the predicates that classify them. */
module Keystrokes {
  import opened Io
  import opened Wrappers

  type Bytes4 = s: seq<byte> | |s| == 4 witness [0, 0, 0, 0]

  datatype Keystroke = Keystroke(bytes: Bytes4)

  const CTRL_C: byte := 3
  const CR: byte := 13
  const ESC: byte := 27

  /** `is_ctrl_c`: the byte pattern of Ctrl-C, which is exactly the
      keystroke whose value is 3. */
  function IsCtrlC(k: Keystroke): (r: bool)
    ensures r <==> Value(k) == CTRL_C as int
  {
    k.bytes == [CTRL_C, 0, 0, 0]
  }

  /** `is_esc`: the escape key alone, not an escape sequence; exactly the
      keystroke whose value is 27. */
  function IsEsc(k: Keystroke): (r: bool)
    ensures r <==> Value(k) == ESC as int
  {
    k.bytes == [ESC, 0, 0, 0]
  }

  /** `is_enter`: only the first byte is looked at, so any value whose low
      byte is a carriage return counts. */
  function IsEnter(k: Keystroke): (r: bool)
    ensures r <==> Value(k) % 256 == CR as int
  {
    k.bytes[0] == CR
  }

  /** `u32::from_ne_bytes` on a little-endian machine. */
  function Value(k: Keystroke): (v: nat)
    ensures v < 0x1_0000_0000
  {
    k.bytes[0] as int + 256 * k.bytes[1] as int + 65536 * k.bytes[2] as int + 16777216 * k.bytes[3] as int
  }

  /** A Unicode scalar value: a code point that is not a surrogate. */
  predicate IsScalarValue(v: int) {
    0 <= v < 0x110000 && !(0xD800 <= v < 0xE000)
  }

  /** `as_char` (`char::from_u32`). */
  function AsChar(k: Keystroke): (r: Option<char>)
    ensures r.Some? <==> IsScalarValue(Value(k))
    ensures r.Some? ==> r.value as int == Value(k)
  {
    var v := Value(k);
    if IsScalarValue(v) then Some(v as char) else None
  }

  /** The keystroke holding the little-endian bytes of `c`. */
  function FromChar(c: char): Keystroke
  {
    var v := c as int;
    Keystroke([v % 256, (v / 256) % 256, (v / 65536) % 256, v / 16777216])
  }

  /** Every character is recovered from its four bytes. */
  lemma AsCharFromChar(c: char)
    ensures AsChar(FromChar(c)) == Some(c)
  {
    var v := c as int;
    SplitLittleEndian(v);
    assert Value(FromChar(c)) == v;
  }

  /** A keystroke that reads as a character holds that character's bytes
      and nothing else. */
  lemma FromCharAsChar(k: Keystroke)
    requires AsChar(k).Some?
    ensures FromChar(AsChar(k).value) == k
  {
    var b := k.bytes;
    JoinLittleEndian(b[0], b[1], b[2], b[3]);
    assert FromChar(AsChar(k).value).bytes == b;
  }

  /** The three named keys are told apart. */
  lemma NamedKeysAreExclusive(k: Keystroke)
    ensures !(IsCtrlC(k) && IsEsc(k))
    ensures !(IsCtrlC(k) && IsEnter(k))
    ensures !(IsEsc(k) && IsEnter(k))
  {
  }

  /** Ctrl-C and Esc also read as the characters U+0003 and U+001B. */
  lemma NamedKeysAreChars(k: Keystroke)
    ensures IsCtrlC(k) ==> AsChar(k) == Some(3 as char)
    ensures IsEsc(k) ==> AsChar(k) == Some(27 as char)
  {
  }

  /** A character read from an Enter keystroke has 13 as its low byte. */
  lemma EnterCharEndsInCarriageReturn(k: Keystroke)
    requires IsEnter(k) && AsChar(k).Some?
    ensures (AsChar(k).value as int) % 256 == 13
  {
    var b := k.bytes;
    assert Value(k) == 13 + 256 * (b[1] as int + 256 * b[2] as int + 65536 * b[3] as int);
  }

  /** Worked values. */
  lemma Examples()
    ensures IsCtrlC(Keystroke([3, 0, 0, 0]))
    ensures IsEsc(Keystroke([27, 0, 0, 0])) && !IsEsc(Keystroke([27, 91, 65, 0]))
    ensures IsEnter(Keystroke([13, 0, 0, 0])) && IsEnter(Keystroke([13, 10, 0, 0]))
    ensures AsChar(Keystroke([0x41, 0, 0, 0])) == Some('A')
    ensures AsChar(Keystroke([0, 0, 0, 0])) == Some('\0')
    ensures AsChar(Keystroke([0, 0xD8, 0, 0])).None?
    ensures AsChar(Keystroke([0, 0, 0x11, 0])).None?
  {
    assert [27, 91, 65, 0] != [ESC, 0, 0, 0] by {
      assert [27, 91, 65, 0][1] == 91;
    }
  }

  // Arithmetic of little-endian byte groups.

  lemma SplitLittleEndian(v: int)
    requires 0 <= v
    ensures v == v % 256 + 256 * ((v / 256) % 256) + 65536 * ((v / 65536) % 256) + 16777216 * (v / 16777216)
  {
    assert v / 256 == (v / 65536) * 256 + (v / 256) % 256;
    assert v / 65536 == (v / 16777216) * 256 + (v / 65536) % 256;
  }

  lemma JoinLittleEndian(a: int, b: int, c: int, d: int)
    requires 0 <= a < 256 && 0 <= b < 256 && 0 <= c < 256 && 0 <= d
    ensures var v := a + 256 * b + 65536 * c + 16777216 * d;
            v % 256 == a && (v / 256) % 256 == b && (v / 65536) % 256 == c && v / 16777216 == d
  {
    var v := a + 256 * b + 65536 * c + 16777216 * d;
    assert v / 256 == b + 256 * c + 65536 * d;
    assert v / 65536 == c + 256 * d;
  }
}
