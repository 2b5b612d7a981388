/** The mode transforms of `Term` (src/tty.rs): pure functions from one
    attribute snapshot to the next. Each one is specified by the exact set
    of bits it turns off or on, and by the fields it leaves alone. */
module Modes {
  import opened Io
  import opened Termios

  /** Input flags raw mode turns off: flow control, CR-to-NL and NL-to-CR
      translation, break handling, parity checking, eighth-bit stripping. */
  const RAW_IFLAG_OFF: bv32 := IXON | ICRNL | BRKINT | INPCK | ISTRIP | INLCR
  /** Local flags raw mode turns off: echo, canonical input, extended input
      processing, signal keys. */
  const RAW_LFLAG_OFF: bv32 := ECHO | ICANON | IEXTEN | ISIG
  /** Local flags cooked mode turns on. */
  const COOKED_LFLAG_ON: bv32 := ECHO | ECHONL | ICANON
  /** Local flags the echo toggles act on. */
  const ECHO_FLAGS: bv32 := ECHO | ECHONL
  /** Local flags password mode turns on (echo itself it turns off). */
  const PASSWORD_LFLAG_ON: bv32 := ECHONL | ICANON

  /** `raw_mode`. Note that raw mode clears the character-size field and
      does not set it back to eight bits. */
  function RawMode(t: Attrs): (r: Attrs)
    ensures Cleared(t.iflag, r.iflag, RAW_IFLAG_OFF)
    ensures Cleared(t.lflag, r.lflag, RAW_LFLAG_OFF)
    ensures Cleared(t.oflag, r.oflag, OPOST)
    ensures Cleared(t.cflag, r.cflag, CS8)
    ensures r.cc == t.cc
  {
    Attrs(ClearBits(t.iflag, RAW_IFLAG_OFF), ClearBits(t.oflag, OPOST),
          ClearBits(t.cflag, CS8), ClearBits(t.lflag, RAW_LFLAG_OFF), t.cc)
  }

  /** `cooked_mode`: a minimal re-enabling of echo and line editing. */
  function CookedMode(t: Attrs): (r: Attrs)
    ensures Raised(t.iflag, r.iflag, IUTF8)
    ensures Raised(t.lflag, r.lflag, COOKED_LFLAG_ON)
    ensures r.oflag == t.oflag && r.cflag == t.cflag && r.cc == t.cc
  {
    t.(iflag := SetBits(t.iflag, IUTF8), lflag := SetBits(t.lflag, COOKED_LFLAG_ON))
  }

  /** `disable_output_processing`. */
  function DisableOutputProcessing(t: Attrs): (r: Attrs)
    ensures Cleared(t.oflag, r.oflag, OPOST)
    ensures r.iflag == t.iflag && r.cflag == t.cflag && r.lflag == t.lflag && r.cc == t.cc
  {
    t.(oflag := ClearBits(t.oflag, OPOST))
  }

  /** `enable_output_processing`. */
  function EnableOutputProcessing(t: Attrs): (r: Attrs)
    ensures Raised(t.oflag, r.oflag, OPOST)
    ensures r.iflag == t.iflag && r.cflag == t.cflag && r.lflag == t.lflag && r.cc == t.cc
  {
    t.(oflag := SetBits(t.oflag, OPOST))
  }

  /** `enable_echo`. */
  function EnableEcho(t: Attrs): (r: Attrs)
    ensures Raised(t.lflag, r.lflag, ECHO_FLAGS)
    ensures r.iflag == t.iflag && r.oflag == t.oflag && r.cflag == t.cflag && r.cc == t.cc
  {
    t.(lflag := SetBits(t.lflag, ECHO_FLAGS))
  }

  /** `disable_echo`. */
  function DisableEcho(t: Attrs): (r: Attrs)
    ensures Cleared(t.lflag, r.lflag, ECHO_FLAGS)
    ensures r.iflag == t.iflag && r.oflag == t.oflag && r.cflag == t.cflag && r.cc == t.cc
  {
    t.(lflag := ClearBits(t.lflag, ECHO_FLAGS))
  }

  /** `password_mode`: echo off, newline echo and line editing on. */
  function PasswordMode(t: Attrs): (r: Attrs)
    ensures NoneSet(r.lflag, ECHO)
    ensures AllSet(r.lflag, PASSWORD_LFLAG_ON)
    ensures SameOutside(t.lflag, r.lflag, ECHO | PASSWORD_LFLAG_ON)
    ensures r.iflag == t.iflag && r.oflag == t.oflag && r.cflag == t.cflag && r.cc == t.cc
  {
    PasswordWordFacts(t.lflag);
    t.(lflag := PasswordWord(t.lflag))
  }

  /** The local-flag word of password mode. */
  function PasswordWord(w: bv32): bv32 {
    (w & !ECHO) | PASSWORD_LFLAG_ON
  }

  /** `disable_flow_control`. */
  function DisableFlowControl(t: Attrs): (r: Attrs)
    ensures Cleared(t.iflag, r.iflag, IXON)
    ensures r.oflag == t.oflag && r.cflag == t.cflag && r.lflag == t.lflag && r.cc == t.cc
  {
    t.(iflag := ClearBits(t.iflag, IXON))
  }

  /** `enable_flow_control`. */
  function EnableFlowControl(t: Attrs): (r: Attrs)
    ensures Raised(t.iflag, r.iflag, IXON)
    ensures r.oflag == t.oflag && r.cflag == t.cflag && r.lflag == t.lflag && r.cc == t.cc
  {
    t.(iflag := SetBits(t.iflag, IXON))
  }

  /** The read timeout, in tenths of a second, that `input_timeout` stores
      for a duration of `ms` milliseconds: rounded down to a tenth, then
      clamped to the one-byte range 1..255. */
  function Tenths(ms: nat): (r: byte)
    ensures 1 <= r <= 255
    ensures 100 <= ms < 25600 ==> r * 100 <= ms < r * 100 + 100
    ensures ms < 100 ==> r == 1
    ensures ms >= 25600 ==> r == 255
  {
    var tenths := ms / 100;
    if tenths == 0 then 1
    else if tenths <= 255 then tenths
    else 255
  }

  /** `input_timeout`: reads return after at most `Tenths(ms)` tenths of a
      second, even when no byte arrived. */
  function InputTimeout(t: Attrs, ms: nat): (r: Attrs)
    ensures r.cc[VMIN] == 0 && r.cc[VTIME] == Tenths(ms)
    ensures forall i | 0 <= i < NCCS && i != VMIN && i != VTIME :: r.cc[i] == t.cc[i]
    ensures r.iflag == t.iflag && r.oflag == t.oflag && r.cflag == t.cflag && r.lflag == t.lflag
  {
    t.(cc := t.cc[VMIN := 0][VTIME := Tenths(ms)])
  }

  /** `disable_input_timeout`: classic blocking reads of at least one byte. */
  function DisableInputTimeout(t: Attrs): (r: Attrs)
    ensures r.cc[VMIN] == 1 && r.cc[VTIME] == 0
    ensures forall i | 0 <= i < NCCS && i != VMIN && i != VTIME :: r.cc[i] == t.cc[i]
    ensures r.iflag == t.iflag && r.oflag == t.oflag && r.cflag == t.cflag && r.lflag == t.lflag
  {
    t.(cc := t.cc[VMIN := 1][VTIME := 0])
  }

  // ---------------------------------------------------------------------
  // Properties relating the transforms to each other.

  /** Cooked mode is not an inverse of raw mode: output processing stays off,
      so a snapshot that had it on is not restored. */
  lemma CookedDoesNotUndoRaw(t: Attrs)
    ensures NoneSet(CookedMode(RawMode(t)).oflag, OPOST)
    ensures AllSet(t.oflag, OPOST) ==> CookedMode(RawMode(t)) != t
  {
    var r := RawMode(t);
    assert CookedMode(r).oflag == r.oflag;
    if AllSet(t.oflag, OPOST) {
      assert t.oflag & OPOST != CookedMode(r).oflag & OPOST;
    }
  }

  /** Disabling echo is undone by enabling it, on a snapshot that had both
      echo flags on; and the other way round on one that had both off. */
  lemma EchoTogglesAreInverse(t: Attrs)
    ensures AllSet(t.lflag, ECHO_FLAGS) ==> EnableEcho(DisableEcho(t)) == t
    ensures NoneSet(t.lflag, ECHO_FLAGS) ==> DisableEcho(EnableEcho(t)) == t
  {
    if AllSet(t.lflag, ECHO_FLAGS) {
      SetUndoesClear(t.lflag, ECHO_FLAGS);
    }
    if NoneSet(t.lflag, ECHO_FLAGS) {
      ClearUndoesSet(t.lflag, ECHO_FLAGS);
    }
  }

  /** The same for output processing. */
  lemma OutputProcessingTogglesAreInverse(t: Attrs)
    ensures AllSet(t.oflag, OPOST) ==> EnableOutputProcessing(DisableOutputProcessing(t)) == t
    ensures NoneSet(t.oflag, OPOST) ==> DisableOutputProcessing(EnableOutputProcessing(t)) == t
  {
    if AllSet(t.oflag, OPOST) {
      SetUndoesClear(t.oflag, OPOST);
    }
    if NoneSet(t.oflag, OPOST) {
      ClearUndoesSet(t.oflag, OPOST);
    }
  }

  /** The same for flow control. */
  lemma FlowControlTogglesAreInverse(t: Attrs)
    ensures AllSet(t.iflag, IXON) ==> EnableFlowControl(DisableFlowControl(t)) == t
    ensures NoneSet(t.iflag, IXON) ==> DisableFlowControl(EnableFlowControl(t)) == t
  {
    if AllSet(t.iflag, IXON) {
      SetUndoesClear(t.iflag, IXON);
    }
    if NoneSet(t.iflag, IXON) {
      ClearUndoesSet(t.iflag, IXON);
    }
  }

  /** Password mode does not depend on the echo state it starts from. */
  lemma PasswordModeIgnoresEchoState(t: Attrs)
    ensures PasswordMode(EnableEcho(t)) == PasswordMode(t)
    ensures PasswordMode(DisableEcho(t)) == PasswordMode(t)
  {
    PasswordAbsorbsEcho(t.lflag);
  }

  /** A longer requested timeout never gives a shorter stored one. */
  lemma TenthsMonotonic(a: nat, b: nat)
    requires a <= b
    ensures Tenths(a) <= Tenths(b)
  {
    assert a / 100 <= b / 100;
  }

  /** Worked values of the timeout clamp. */
  lemma TenthsExamples()
    ensures Tenths(0) == 1 && Tenths(99) == 1
    ensures Tenths(1500) == 15 && Tenths(1599) == 15
    ensures Tenths(25599) == 255 && Tenths(50000) == 255
  {
  }

  /** Disabling the timeout restores a snapshot that had blocking reads. */
  lemma DisableInputTimeoutUndoesTimeout(t: Attrs, ms: nat)
    requires t.cc[VMIN] == 1 && t.cc[VTIME] == 0
    ensures DisableInputTimeout(InputTimeout(t, ms)) == t
  {
    assert DisableInputTimeout(InputTimeout(t, ms)).cc == t.cc;
  }

  // ---------------------------------------------------------------------
  // Bit-vector identities behind the lemmas above.

  lemma PasswordWordFacts(w: bv32)
    ensures NoneSet(PasswordWord(w), ECHO)
    ensures AllSet(PasswordWord(w), PASSWORD_LFLAG_ON)
    ensures SameOutside(w, PasswordWord(w), ECHO | PASSWORD_LFLAG_ON)
  {
    PasswordWordIdentities(w);
  }

  lemma PasswordWordIdentities(w: bv32)
    ensures ((w & !ECHO) | PASSWORD_LFLAG_ON) & ECHO == 0
    ensures ((w & !ECHO) | PASSWORD_LFLAG_ON) & PASSWORD_LFLAG_ON == PASSWORD_LFLAG_ON
    ensures ((w & !ECHO) | PASSWORD_LFLAG_ON) & !(ECHO | PASSWORD_LFLAG_ON) == w & !(ECHO | PASSWORD_LFLAG_ON)
  {
  }

  lemma PasswordAbsorbsEcho(w: bv32)
    ensures PasswordWord(w | ECHO_FLAGS) == PasswordWord(w)
    ensures PasswordWord(w & !ECHO_FLAGS) == PasswordWord(w)
  {
    PasswordAbsorbsIdentities(w);
  }

  lemma PasswordAbsorbsIdentities(w: bv32)
    ensures (((w | ECHO_FLAGS) & !ECHO) | PASSWORD_LFLAG_ON) == ((w & !ECHO) | PASSWORD_LFLAG_ON)
    ensures (((w & !ECHO_FLAGS) & !ECHO) | PASSWORD_LFLAG_ON) == ((w & !ECHO) | PASSWORD_LFLAG_ON)
  {
  }

  lemma SetUndoesClear(w: bv32, m: bv32)
    requires AllSet(w, m)
    ensures SetBits(ClearBits(w, m), m) == w
  {
    SetUndoesClearIdentity(w, m);
  }

  lemma SetUndoesClearIdentity(w: bv32, m: bv32)
    requires w & m == m
    ensures (w & !m) | m == w
  {
  }

  lemma ClearUndoesSet(w: bv32, m: bv32)
    requires NoneSet(w, m)
    ensures ClearBits(SetBits(w, m), m) == w
  {
    ClearUndoesSetIdentity(w, m);
  }

  lemma ClearUndoesSetIdentity(w: bv32, m: bv32)
    requires w & m == 0
    ensures (w | m) & !m == w
  {
  }
}
