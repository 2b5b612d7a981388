/** The secret input buffer `Password` (src/tty/password.rs): a fixed,
    never-reallocated 512-byte buffer, filled by `read_line` from a reader,
    read back as the bytes before the first NUL, and zero-filled on drop. */
module Passwords {
  import opened Io
  import opened Wrappers
  import Utf8

  const PASSWORD_BUFFER_LEN: nat := 512
  /** The index of the last byte, which `read_line` never writes. */
  const LAST: nat := PASSWORD_BUFFER_LEN - 1
  const NEWLINE: byte := 10
  const NUL: byte := 0

  /** The heap array: its length is fixed once and for all. */
  type Buffer = s: seq<byte> | |s| == PASSWORD_BUFFER_LEN witness seq(512, i => 0)

  datatype Password = Password(buf: Buffer)

  /** `Password::new`: a zero-filled buffer. */
  function New(): (p: Password)
    ensures forall i | 0 <= i < PASSWORD_BUFFER_LEN :: p.buf[i] == NUL
  {
    Password(seq(PASSWORD_BUFFER_LEN, i => NUL))
  }

  // ---------------------------------------------------------------------
  // Readers.

  /** What one `read` call into a slice does: it stores some bytes at the
      start of the slice and reports how many, or it fails. */
  datatype ReadResult = Read(bytes: seq<byte>) | Failed(error: IoError)

  /** A reader, as seen by one `read_line`: the reply to its `call`-th read
      call, given the length of the slice offered. */
  type Reader = (nat, nat) -> ReadResult

  /** `std::io::Read` promises never to report more bytes than the slice
      holds. */
  ghost predicate WellBehaved(reader: Reader) {
    forall call: nat, room: nat :: reader(call, room).Read? ==> |reader(call, room).bytes| <= room
  }

  /** A reader that hands out the given chunks in order, each cut to the
      slice offered, and then reports end of input. */
  function Chunks(chunks: seq<seq<byte>>): (reader: Reader)
    ensures WellBehaved(reader)
  {
    (call: nat, room: nat) =>
      if call < |chunks| then
        Read(if |chunks[call]| <= room then chunks[call] else chunks[call][..room])
      else Read([])
  }

  // ---------------------------------------------------------------------
  // read_line.

  /** The loop of `read_line` from the state (`buf`, `index`), before read
      call number `call`. */
  function ReadLineFrom(buf: Buffer, index: nat, call: nat, reader: Reader): (r: (Buffer, Result<(), IoError>))
    requires index < LAST
    requires WellBehaved(reader)
    ensures r.0[LAST] == buf[LAST]
    ensures r.0[..index] == buf[..index]
    decreases LAST - index
  {
    match reader(call, LAST - index)
    case Failed(e) => (buf, Err(e))
    case Read(bytes) =>
      if |bytes| == 0 then (buf, Ok(()))
      else
        var end := index + |bytes|;
        var filled: Buffer := buf[..index] + bytes + buf[end..];
        if filled[end - 1] == NEWLINE then (filled[end - 1 := NUL], Ok(()))
        else if end >= LAST then (filled, Ok(()))
        else ReadLineFrom(filled, end, call + 1, reader)
  }

  /** `Password::read_line`. */
  function ReadLine(p: Password, reader: Reader): (r: (Password, Result<(), IoError>))
    requires WellBehaved(reader)
    ensures r.0.buf[LAST] == p.buf[LAST]
  {
    var (buf, status) := ReadLineFrom(p.buf, 0, 0, reader);
    (Password(buf), status)
  }

  /** `Password::read_line` on the heap array itself: reads go straight into
      the unfilled part of the array, short of its last byte. */
  method ReadLineInPlace(p: Password, reader: Reader) returns (q: Password, status: Result<(), IoError>)
    requires WellBehaved(reader)
    ensures (q, status) == ReadLine(p, reader)
    ensures q.buf[LAST] == p.buf[LAST]
  {
    var a := new byte[PASSWORD_BUFFER_LEN](i requires 0 <= i < PASSWORD_BUFFER_LEN => p.buf[i]);
    assert a[..] == p.buf;
    var index := 0;
    var call := 0;
    status := Ok(());
    while true
      invariant 0 <= index < LAST
      invariant |a[..]| == PASSWORD_BUFFER_LEN
      invariant ReadLineFrom(a[..], index, call, reader) == ReadLineFrom(p.buf, 0, 0, reader)
      decreases LAST - index
    {
      var reply := reader(call, LAST - index);
      if reply.Failed? {
        status := Err(reply.error);
        break;
      }
      var bytes := reply.bytes;
      if |bytes| == 0 {
        break;
      }
      Store(a, index, bytes);
      index := index + |bytes|;
      if a[index - 1] == NEWLINE {
        a[index - 1] := NUL;
        break;
      }
      if index >= LAST {
        break;
      }
      call := call + 1;
    }
    q := Password(a[..]);
  }

  /** What a successful `read` into `a[index..]` leaves in the array. */
  method Store(a: array<byte>, index: nat, bytes: seq<byte>)
    requires index + |bytes| <= a.Length
    modifies a
    ensures a[..] == old(a[..])[..index] + bytes + old(a[..])[index + |bytes|..]
  {
    forall j | 0 <= j < |bytes| {
      a[index + j] := bytes[j];
    }
  }

  // ---------------------------------------------------------------------
  // Accessors.

  /** The position of the first NUL byte of `s`, if any. */
  function FirstNul(s: seq<byte>): (r: Option<nat>)
    ensures r.None? <==> NUL !in s
    ensures r.Some? ==> r.value < |s| && s[r.value] == NUL && NUL !in s[..r.value]
  {
    if |s| == 0 then None
    else if s[0] == NUL then Some(0)
    else
      match FirstNul(s[1..])
      case None => None
      case Some(i) =>
        assert s[..i + 1] == [s[0]] + s[1..][..i];
        Some(i + 1)
  }

  /** `as_cstr`: the NUL-terminated string at the start of the buffer,
      terminator included; None where the source panics for want of a NUL. */
  function AsCstr(p: Password): (r: Option<seq<byte>>)
    ensures r.Some? <==> NUL in p.buf
    ensures r.Some? ==> 1 <= |r.value| <= PASSWORD_BUFFER_LEN && r.value == p.buf[..|r.value|]
    ensures r.Some? ==> r.value[|r.value| - 1] == NUL && NUL !in r.value[..|r.value| - 1]
  {
    match FirstNul(p.buf)
    case None => None
    case Some(i) =>
      assert p.buf[..i + 1][..i] == p.buf[..i];
      Some(p.buf[..i + 1])
  }

  /** `as_bytes`: the secret, that is the bytes before the first NUL. */
  function AsBytes(p: Password): (r: Option<seq<byte>>)
    ensures r.Some? <==> NUL in p.buf
    ensures r.Some? ==> NUL !in r.value && |r.value| < PASSWORD_BUFFER_LEN
    ensures r.Some? ==> r.value == p.buf[..|r.value|] && p.buf[|r.value|] == NUL
  {
    match AsCstr(p)
    case None => None
    case Some(c) => Some(c[..|c| - 1])
  }

  /** `as_str`: the secret as text, when it is valid UTF-8. */
  function AsStr(p: Password): (r: Option<Result<string, Utf8.Utf8Error>>)
    ensures r.Some? <==> NUL in p.buf
    ensures r.Some? && r.value.Ok? ==> Utf8.Encode(r.value.value) == AsBytes(p).value
    ensures r.Some? && r.value.Err? ==>
              r.value.error.validUpTo < |AsBytes(p).value|
              && Utf8.Decode(AsBytes(p).value[..r.value.error.validUpTo]).Ok?
  {
    match AsBytes(p)
    case None => None
    case Some(b) =>
      var d := Utf8.Decode(b);
      if d.Ok? then
        Utf8.EncodeDecode(b);
        Some(d)
      else
        Utf8.ValidUpToIsValid(b);
        Some(d)
  }

  /** A secret that is the UTF-8 encoding of some text reads back as that
      text. */
  lemma AsStrAcceptsUtf8(p: Password, text: string)
    requires AsBytes(p) == Some(Utf8.Encode(text))
    ensures AsStr(p) == Some(Ok(text))
  {
    Utf8.DecodeEncode(text);
  }

  /** `Drop::drop`: every byte of the buffer is overwritten with zero. */
  function Drop(p: Password): (q: Password)
    ensures forall i | 0 <= i < PASSWORD_BUFFER_LEN :: q.buf[i] == NUL
  {
    Password(seq(PASSWORD_BUFFER_LEN, i => NUL))
  }

  // ---------------------------------------------------------------------
  // as_mut_slice.

  /** A caller's write of `data` at `at` through the slice `as_mut_slice`
      returns. As written, that slice is the whole buffer. */
  function StoreThroughMutSlice(p: Password, at: nat, data: seq<byte>): (q: Password)
    requires at + |data| <= PASSWORD_BUFFER_LEN
    ensures q.buf[at..at + |data|] == data
    ensures q.buf[..at] == p.buf[..at] && q.buf[at + |data|..] == p.buf[at + |data|..]
  {
    Password(p.buf[..at] + data + p.buf[at + |data|..])
  }

  /** The same write through the slice the documentation of `as_mut_slice`
      describes: one byte short of the buffer. */
  function StoreThroughBoundedSlice(p: Password, at: nat, data: seq<byte>): (q: Password)
    requires at + |data| <= LAST
    ensures q.buf[at..at + |data|] == data
    ensures q.buf[..at] == p.buf[..at] && q.buf[at + |data|..] == p.buf[at + |data|..]
  {
    Password(p.buf[..at] + data + p.buf[at + |data|..])
  }

  // ---------------------------------------------------------------------
  // Properties.

  /** Starting from `new`, `read_line` leaves the terminating NUL in place,
      so `as_cstr` cannot panic afterwards, whatever the reader does. */
  lemma ReadLineKeepsTerminator(reader: Reader)
    requires WellBehaved(reader)
    ensures AsCstr(ReadLine(New(), reader).0).Some?
  {
    var q := ReadLine(New(), reader).0;
    assert q.buf[LAST] == NUL;
  }

  /** A chunk whose last byte is a newline ends the line: the newline
      becomes NUL and nothing further is read. */
  lemma NewlineEndsLine(buf: Buffer, index: nat, call: nat, reader: Reader, bytes: seq<byte>)
    requires index < LAST && WellBehaved(reader)
    requires reader(call, LAST - index) == Read(bytes)
    requires |bytes| > 0 && bytes[|bytes| - 1] == NEWLINE
    ensures ReadLineFrom(buf, index, call, reader)
         == (buf[..index] + bytes[..|bytes| - 1] + [NUL] + buf[index + |bytes|..], Ok(()))
  {
    var end := index + |bytes|;
    var filled := buf[..index] + bytes + buf[end..];
    assert filled[end - 1] == NEWLINE;
    assert filled[end - 1 := NUL] == buf[..index] + bytes[..|bytes| - 1] + [NUL] + buf[end..];
  }

  /** A newline that is not the last byte of its chunk is stored as it is,
      and stays in the buffer whatever the later reads do. */
  lemma InteriorNewlineKept(buf: Buffer, index: nat, call: nat, reader: Reader, bytes: seq<byte>, j: nat)
    requires index < LAST && WellBehaved(reader)
    requires reader(call, LAST - index) == Read(bytes)
    requires j < |bytes| - 1 && bytes[j] == NEWLINE
    ensures ReadLineFrom(buf, index, call, reader).0[index + j] == NEWLINE
  {
    var end := index + |bytes|;
    var filled: Buffer := buf[..index] + bytes + buf[end..];
    assert filled[index + j] == NEWLINE;
    if filled[end - 1] != NEWLINE && end < LAST {
      var r := ReadLineFrom(filled, end, call + 1, reader).0;
      assert r[..end][index + j] == filled[..end][index + j];
    }
  }

  /** End of input (a read of zero bytes) ends the line with success and
      writes nothing, not even a NUL. */
  lemma EndOfInputWritesNothing(buf: Buffer, index: nat, call: nat, reader: Reader)
    requires index < LAST && WellBehaved(reader)
    requires reader(call, LAST - index) == Read([])
    ensures ReadLineFrom(buf, index, call, reader) == (buf, Ok(()))
  {
  }

  /** A failed read call ends the line at once with its error; the buffer
      keeps whatever earlier calls stored in it. */
  lemma ReadFailureReturnsAtOnce(buf: Buffer, index: nat, call: nat, reader: Reader, e: IoError)
    requires index < LAST && WellBehaved(reader)
    requires reader(call, LAST - index) == Failed(e)
    ensures ReadLineFrom(buf, index, call, reader) == (buf, Err(e))
  {
  }

  /** A chunk that fills the buffer up to its last byte without ending in
      a newline ends the line with success: longer input is cut off there. */
  lemma FullBufferEndsLine(buf: Buffer, index: nat, call: nat, reader: Reader, bytes: seq<byte>)
    requires index < LAST && WellBehaved(reader)
    requires reader(call, LAST - index) == Read(bytes)
    requires |bytes| > 0 && bytes[|bytes| - 1] != NEWLINE && index + |bytes| >= LAST
    ensures ReadLineFrom(buf, index, call, reader) == (buf[..index] + bytes + buf[LAST..], Ok(()))
  {
    assert |bytes| <= LAST - index;
  }

  /** Bytes stored by a read stay stored when a later read fails, and the
      failure is returned. */
  lemma FailureKeepsStoredBytes(buf: Buffer, index: nat, call: nat, reader: Reader, bytes: seq<byte>, e: IoError)
    requires index < LAST && WellBehaved(reader)
    requires reader(call, LAST - index) == Read(bytes)
    requires |bytes| > 0 && bytes[|bytes| - 1] != NEWLINE && index + |bytes| < LAST
    requires reader(call + 1, LAST - index - |bytes|) == Failed(e)
    ensures ReadLineFrom(buf, index, call, reader)
         == (buf[..index] + bytes + buf[index + |bytes|..], Err(e))
  {
  }

  /** The loop's failure result is exactly a reader's failure. */
  lemma {:induction false} ErrorsComeFromTheReader(buf: Buffer, index: nat, call: nat, reader: Reader)
    requires index < LAST && WellBehaved(reader)
    requires ReadLineFrom(buf, index, call, reader).1.Err?
    ensures exists c: nat, room: nat :: call <= c && room < LAST - index + 1
              && reader(c, room) == Failed(ReadLineFrom(buf, index, call, reader).1.error)
    decreases LAST - index
  {
    match reader(call, LAST - index)
    case Failed(e) =>
      assert reader(call, LAST - index) == Failed(e);
    case Read(bytes) =>
      var end := index + |bytes|;
      var filled: Buffer := buf[..index] + bytes + buf[end..];
      ErrorsComeFromTheReader(filled, end, call + 1, reader);
  }

  /** The secret is determined by the first NUL: whatever comes before
      it, and nothing after it. */
  lemma SecretEndsAtFirstNul(p: Password, k: nat)
    requires k < PASSWORD_BUFFER_LEN && p.buf[k] == NUL && NUL !in p.buf[..k]
    ensures AsBytes(p) == Some(p.buf[..k])
  {
    assert p.buf[..k + 1][k] == NUL;
    forall j | 0 <= j < k
      ensures p.buf[j] != NUL
    {
      assert p.buf[..k][j] == p.buf[j];
    }
    var v := AsBytes(p).value;
    forall j | 0 <= j < |v|
      ensures p.buf[j] != NUL
    {
      assert v[j] == p.buf[j];
    }
    assert |v| <= k;
  }

  /** Worked example: the single chunk "hello\n" gives the secret "hello". */
  lemma HelloExample()
    ensures AsBytes(ReadLine(New(), Chunks([[104, 101, 108, 108, 111, 10]])).0) == Some([104, 101, 108, 108, 111])
  {
    var reader := Chunks([[104, 101, 108, 108, 111, 10]]);
    var bytes: seq<byte> := [104, 101, 108, 108, 111, 10];
    assert reader(0, LAST) == Read(bytes);
    var buf := New().buf;
    NewlineEndsLine(buf, 0, 0, reader, bytes);
    var q := ReadLine(New(), reader).0;
    assert q.buf == [104, 101, 108, 108, 111] + [NUL] + buf[6..];
    assert q.buf[..5] == [104, 101, 108, 108, 111];
    SecretEndsAtFirstNul(q, 5);
  }

  /** Worked example: input longer than the buffer is silently cut to
      511 bytes, with success. */
  lemma TruncationExample()
    ensures var r := ReadLine(New(), Chunks([seq(600, i => 97)]));
            r.1 == Ok(()) && AsBytes(r.0) == Some(seq(LAST, i => 97))
  {
    var reader := Chunks([seq(600, i => 97)]);
    var bytes: seq<byte> := seq(LAST, i => 97);
    assert reader(0, LAST) == Read(bytes);
    var r := ReadLine(New(), reader);
    assert r.0.buf == bytes + [NUL];
    assert r.0.buf[..LAST] == bytes;
    SecretEndsAtFirstNul(r.0, LAST);
  }

  /** Dropping a password leaves no secret behind: it reads back as the
      empty secret, like a new buffer. */
  lemma DropLeavesNoSecret(p: Password)
    ensures Drop(p) == New()
    ensures AsBytes(Drop(p)) == Some([])
  {
    assert Drop(p).buf[0] == NUL;
  }

  /** As written, `as_mut_slice` lets a caller overwrite the final NUL, after
      which `as_cstr` panics. */
  lemma MutSliceCanRemoveTerminator()
    ensures AsCstr(StoreThroughMutSlice(New(), 0, seq(PASSWORD_BUFFER_LEN, i => 97))).None?
  {
    var q := StoreThroughMutSlice(New(), 0, seq(PASSWORD_BUFFER_LEN, i => 97));
    assert q.buf == seq(PASSWORD_BUFFER_LEN, i => 97);
  }

  /** Through the slice the documentation describes, a buffer that ends in
      NUL keeps it, so `as_cstr` never panics. */
  lemma BoundedSliceKeepsTerminator(p: Password, at: nat, data: seq<byte>)
    requires at + |data| <= LAST && p.buf[LAST] == NUL
    ensures AsCstr(StoreThroughBoundedSlice(p, at, data)).Some?
  {
    var q := StoreThroughBoundedSlice(p, at, data);
    assert q.buf[at + |data|..][LAST - at - |data|] == NUL;
  }
}
