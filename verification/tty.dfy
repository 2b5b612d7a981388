/** The terminal session `Term` (src/tty.rs) against an abstract terminal
    device. The session holds the pair (original, working) of attribute
    snapshots; mode methods change `working` only, `set` copies `working`
    to the device, `reset` copies `original` into `working` and then to the
    device, and `save` re-reads both from the device. */
module Tty {
  import opened Io
  import opened Wrappers
  import opened Termios
  import Modes
  import Passwords

  /** When `tcsetattr` applies new attributes. The model has no input or
      output queues, so the three behave alike on the attributes. */
  datatype SetAction = TCSAFLUSH | TCSANOW | TCSADRAIN

  /** `SetAction::as_flag`, with the Linux values of the constants. The
      model's device applies every action alike (see `SetAttrs`), so this
      mapping stands on its own. */
  function AsFlag(a: SetAction): (r: int)
    ensures 0 <= r <= 2
    ensures a == TCSANOW <==> r == 0
    ensures a == TCSAFLUSH <==> r == 2
  {
    match a
    case TCSANOW => 0
    case TCSADRAIN => 1
    case TCSAFLUSH => 2
  }

  /** The terminal behind the session's output descriptor: its current
      attributes, and the error every attribute call fails with when the
      descriptor is not a usable terminal. */
  datatype Device = Device(attrs: Attrs, fault: Option<IoError>)

  /** `get_termios`. */
  function GetAttrs(d: Device): (r: Result<Attrs, IoError>)
  {
    match d.fault
    case None => Ok(d.attrs)
    case Some(e) => Err(e)
  }

  /** `set_termios`: the only way the device's attributes change. */
  function SetAttrs(d: Device, action: SetAction, t: Attrs): (r: (Device, Result<(), IoError>))
  {
    match d.fault
    case None => (d.(attrs := t), Ok(()))
    case Some(e) => (d, Err(e))
  }

  /** The session: `t.0` and `t.1` of the source. */
  datatype Term = Term(original: Attrs, working: Attrs)

  /** `Term::new`: both snapshots are the device's current attributes. */
  function New(d: Device): (r: Result<Term, IoError>)
    ensures r.Ok? <==> d.fault.None?
    ensures r.Ok? ==> r.value.original == d.attrs && r.value.working == d.attrs
    ensures r.Err? ==> d.fault == Some(r.error)
  {
    match GetAttrs(d)
    case Ok(t) => Ok(Term(t, t))
    case Err(e) => Err(e)
  }

  /** `Term::save`: re-captures both snapshots from the device; on failure
      the session is left as it was. */
  function Save(s: Term, d: Device): (r: (Term, Result<(), IoError>))
    ensures r.1.Ok? <==> d.fault.None?
    ensures r.1.Ok? ==> r.0.original == d.attrs && r.0.working == d.attrs
    ensures r.1.Err? ==> r.0 == s && d.fault == Some(r.1.error)
  {
    match GetAttrs(d)
    case Ok(t) => (Term(t, t), Ok(()))
    case Err(e) => (s, Err(e))
  }

  /** The mode methods of `Term`, by name. */
  datatype Mode =
    | Raw
    | Cooked
    | PasswordMode
    | EnableEcho
    | DisableEcho
    | EnableOutputProcessing
    | DisableOutputProcessing
    | EnableFlowControl
    | DisableFlowControl
    | InputTimeout(ms: nat)
    | DisableInputTimeout

  /** The transform each mode method applies to the working snapshot. */
  function Transform(t: Attrs, m: Mode): Attrs
  {
    match m
    case Raw => Modes.RawMode(t)
    case Cooked => Modes.CookedMode(t)
    case PasswordMode => Modes.PasswordMode(t)
    case EnableEcho => Modes.EnableEcho(t)
    case DisableEcho => Modes.DisableEcho(t)
    case EnableOutputProcessing => Modes.EnableOutputProcessing(t)
    case DisableOutputProcessing => Modes.DisableOutputProcessing(t)
    case EnableFlowControl => Modes.EnableFlowControl(t)
    case DisableFlowControl => Modes.DisableFlowControl(t)
    case InputTimeout(ms) => Modes.InputTimeout(t, ms)
    case DisableInputTimeout => Modes.DisableInputTimeout(t)
  }

  /** A mode method called on the session (through `with_termios`). */
  function WithMode(s: Term, m: Mode): (r: Term)
  {
    s.(working := Transform(s.working, m))
  }

  /** `Term::set`: copies the working snapshot to the device. The session
      itself is not changed (the source takes `&self`). */
  function Set(s: Term, d: Device, action: SetAction): (r: (Device, Result<(), IoError>))
    ensures r.1.Ok? <==> d.fault.None?
    ensures r.1.Ok? ==> r.0 == d.(attrs := s.working)
    ensures r.1.Err? ==> r.0 == d && d.fault == Some(r.1.error)
  {
    SetAttrs(d, action, s.working)
  }

  /** `Term::reset`: the working snapshot becomes the original one, even if
      the device then refuses it, and is copied to the device. */
  function Reset(s: Term, d: Device, action: SetAction): (r: (Term, Device, Result<(), IoError>))
    ensures r.0.original == s.original && r.0.working == s.original
    ensures r.2.Ok? <==> d.fault.None?
    ensures r.2.Ok? ==> r.1 == d.(attrs := s.original)
    ensures r.2.Err? ==> r.1 == d
  {
    var s' := s.(working := s.original);
    var (d', status) := Set(s', d, action);
    (s', d', status)
  }

  // ---------------------------------------------------------------------
  // Sessions over time.

  /** One step of a program using a session. */
  datatype Op = Change(mode: Mode) | Commit(action: SetAction) | Resave

  /** Runs the steps in order, stopping at the first one that fails (as a
      caller using `?` does). */
  function Run(s: Term, d: Device, ops: seq<Op>): (r: (Term, Device, Result<(), IoError>))
    ensures (forall i | 0 <= i < |ops| :: !ops[i].Resave?) ==> r.0.original == s.original
    ensures r.1.fault == d.fault
    decreases |ops|
  {
    if |ops| == 0 then (s, d, Ok(()))
    else
      match ops[0]
      case Change(m) =>
        assert forall i | 0 <= i < |ops| - 1 :: ops[1..][i] == ops[i + 1];
        Run(WithMode(s, m), d, ops[1..])
      case Commit(action) =>
        assert forall i | 0 <= i < |ops| - 1 :: ops[1..][i] == ops[i + 1];
        var (d', status) := Set(s, d, action);
        if status.Err? then (s, d', status) else Run(s, d', ops[1..])
      case Resave =>
        var (s', status) := Save(s, d);
        if status.Err? then (s', d, status) else Run(s', d, ops[1..])
  }

  /** The round-trip law: whatever modes a program sets and commits after
      `new`, `reset` puts the device back to the attributes captured by
      `new`, bit for bit, and working and original agree with it. */
  lemma ResetRestoresCapturedAttrs(d: Device, ops: seq<Op>, action: SetAction)
    requires d.fault.None?
    requires forall i | 0 <= i < |ops| :: !ops[i].Resave?
    ensures var s := New(d).value;
            var (s1, d1, _) := Run(s, d, ops);
            var (s2, d2, status) := Reset(s1, d1, action);
            status.Ok? && d2.attrs == d.attrs && s2.working == d.attrs && s2.original == d.attrs
  {
  }

  /** After `save`, the session and the device agree, whatever was changed
      or committed before, so a `reset` right after it leaves the device as
      it was. */
  lemma ResetAfterSaveKeepsDevice(s: Term, d: Device, action: SetAction)
    requires d.fault.None?
    ensures var (s1, _) := Save(s, d);
            var (s2, d2, status) := Reset(s1, d, action);
            status.Ok? && d2 == d && s2 == s1
  {
  }

  /** Every mode method is idempotent. */
  lemma ModeIsIdempotent(t: Attrs, m: Mode)
    ensures Transform(Transform(t, m), m) == Transform(t, m)
  {
    match m
    case Raw =>
      ClearTwice(t.iflag, Modes.RAW_IFLAG_OFF);
      ClearTwice(t.oflag, OPOST);
      ClearTwice(t.cflag, CS8);
      ClearTwice(t.lflag, Modes.RAW_LFLAG_OFF);
    case Cooked =>
      SetTwice(t.iflag, IUTF8);
      SetTwice(t.lflag, Modes.COOKED_LFLAG_ON);
    case PasswordMode =>
      PasswordWordTwice(t.lflag);
    case EnableEcho => SetTwice(t.lflag, Modes.ECHO_FLAGS);
    case DisableEcho => ClearTwice(t.lflag, Modes.ECHO_FLAGS);
    case EnableOutputProcessing => SetTwice(t.oflag, OPOST);
    case DisableOutputProcessing => ClearTwice(t.oflag, OPOST);
    case EnableFlowControl => SetTwice(t.iflag, IXON);
    case DisableFlowControl => ClearTwice(t.iflag, IXON);
    case InputTimeout(ms) =>
      assert Transform(Transform(t, m), m).cc == Transform(t, m).cc;
    case DisableInputTimeout =>
      assert Transform(Transform(t, m), m).cc == Transform(t, m).cc;
  }

  lemma ClearTwice(w: bv32, m: bv32)
    ensures ClearBits(ClearBits(w, m), m) == ClearBits(w, m)
  {
    ClearTwiceIdentity(w, m);
  }

  lemma ClearTwiceIdentity(w: bv32, m: bv32)
    ensures (w & !m) & !m == w & !m
  {
  }

  lemma SetTwice(w: bv32, m: bv32)
    ensures SetBits(SetBits(w, m), m) == SetBits(w, m)
  {
    SetTwiceIdentity(w, m);
  }

  lemma SetTwiceIdentity(w: bv32, m: bv32)
    ensures (w | m) | m == w | m
  {
  }

  lemma PasswordWordTwice(w: bv32)
    ensures Modes.PasswordWord(Modes.PasswordWord(w)) == Modes.PasswordWord(w)
  {
    PasswordWordTwiceIdentity(w);
  }

  lemma PasswordWordTwiceIdentity(w: bv32)
    ensures (((w & !ECHO) | Modes.PASSWORD_LFLAG_ON) & !ECHO) | Modes.PASSWORD_LFLAG_ON
         == (w & !ECHO) | Modes.PASSWORD_LFLAG_ON
  {
  }

  // ---------------------------------------------------------------------
  // prompt_for_password.

  /** `Term::prompt_for_password`. Writing the prompt is not modelled; its
      outcome is the parameter `promptWritten`. Each `?` of the source is an
      early return: only a full success reaches the final `reset`. On the
      error paths the fresh `Password` is dropped, which zeroes it. */
  function PromptForPassword(s: Term, d: Device, promptWritten: Result<(), IoError>, reader: Passwords.Reader)
    : (r: (Term, Device, Result<Passwords.Password, IoError>))
    requires Passwords.WellBehaved(reader)
    ensures r.0.original == s.original
    ensures r.2.Ok? ==> r.1 == d.(attrs := s.original) && r.0.working == s.original
    ensures r.2.Ok? ==> r.2.value == Passwords.ReadLine(Passwords.New(), reader).0
    ensures r.2.Ok? ==> Passwords.AsCstr(r.2.value).Some?
    ensures r.2.Ok? <==>
              d.fault.None? && promptWritten.Ok? && Passwords.ReadLine(Passwords.New(), reader).1.Ok?
    ensures d.fault.Some? ==> r.1 == d && r.2 == Err(d.fault.value)
    ensures d.fault.None? && (promptWritten.Err? || Passwords.ReadLine(Passwords.New(), reader).1.Err?)
            ==> r.2.Err? && r.1 == d.(attrs := Modes.PasswordMode(s.working))
    ensures d.fault.None? && promptWritten.Err? ==> r.2 == Err(promptWritten.error)
    ensures d.fault.None? && promptWritten.Ok? && Passwords.ReadLine(Passwords.New(), reader).1.Err?
            ==> r.2 == Err(Passwords.ReadLine(Passwords.New(), reader).1.error)
    ensures r.2.Err? ==> r.0.working == Modes.PasswordMode(s.working)
  {
    var s1 := WithMode(s, PasswordMode);
    var (d1, committed) := Set(s1, d, TCSAFLUSH);
    if committed.Err? then (s1, d1, Err(committed.error))
    else if promptWritten.Err? then (s1, d1, Err(promptWritten.error))
    else
      var (pw, read) := Passwords.ReadLine(Passwords.New(), reader);
      if read.Err? then (s1, d1, Err(read.error))
      else
        var (s2, d2, reset) := Reset(s1, d1, TCSAFLUSH);
        Passwords.ReadLineKeepsTerminator(reader);
        match reset
        case Ok(_) => (s2, d2, Ok(pw))
        case Err(e) => (s2, d2, Err(e))
  }

  /** On success the terminal is back in its original mode; when reading
      the line fails, `prompt_for_password` returns before `reset`, so the
      terminal is left with echo off. */
  lemma PromptLeavesEchoOffOnReadFailure(s: Term, d: Device, reader: Passwords.Reader)
    requires Passwords.WellBehaved(reader) && d.fault.None?
    requires Passwords.ReadLine(Passwords.New(), reader).1.Err?
    ensures var (_, d', r) := PromptForPassword(s, d, Ok(()), reader);
            r.Err? && NoneSet(d'.attrs.lflag, ECHO) && AllSet(d'.attrs.lflag, ECHONL | ICANON)
    ensures var (_, d', _) := PromptForPassword(s, d, Ok(()), reader);
            AllSet(s.original.lflag, ECHO) ==> d'.attrs != s.original
  {
    var (_, d', _) := PromptForPassword(s, d, Ok(()), reader);
    assert d'.attrs == Modes.PasswordMode(s.working);
    if AllSet(s.original.lflag, ECHO) {
      assert d'.attrs.lflag & ECHO != s.original.lflag & ECHO;
    }
  }
}
