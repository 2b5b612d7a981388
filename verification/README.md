# Terminal settings, password buffer and keystroke prompts

This project models the core of a small Rust terminal library for Linux:

- `Term` (src/tty.rs) keeps two copies of the terminal's `termios` settings. One is the
  original captured from the device; the other is a working copy that the mode methods
  edit bit by bit and `set` sends to the device. `reset` puts the original back.
  `prompt_for_password` strings these together around a password read.
- `Password` (src/tty/password.rs) owns a fixed 512-byte buffer. `read_line` fills it from
  a reader, replaces a trailing newline with NUL and truncates long input so the last byte
  stays NUL. `as_cstr`, `as_bytes` and `as_str` view the secret. `drop` zeroes the buffer.
- `Keystroke`, `prompt_yn` and `prompt_menu` (src/lib.rs) classify the four bytes of one
  raw read and turn keystrokes into an answer.

The terminal device is a value, not a file descriptor. A `Device` holds the attributes the
kernel would report and an optional fault. With a fault, every `tcgetattr`/`tcsetattr`
fails with that error (for example `ENOTTY` for a non-terminal). Otherwise the calls
succeed and `tcsetattr` replaces the stored attributes. A reader is a function from
(call number, room offered) to a chunk of bytes or an I/O error. The keystrokes a prompt
receives are a finite sequence of read results; an error in it is the `unwrap` panic of
the source. Panics (`expect`, `panic!`) are `None` or a `Panicked` outcome.

Files:

- `wrappers.dfy`: `Option` and `Result`.
- `io.dfy`: bytes and I/O errors.
- `termios.dfy`: the attribute record, Linux flag values, and the bit predicates `Cleared`
  and `Raised` ("these bits off/on, every other bit as before").
- `modes.dfy`: the mode methods of `Term` as functions on attributes.
- `tty.dfy`: `Term`, the device, `new`/`save`/`set`/`reset`, runs of operations and
  `prompt_for_password`.
- `password.rs` is modelled in `password.dfy`.
- `utf8.dfy`: the UTF-8 validation `as_str` relies on (RFC 3629, section 4), with its
  round trip.
- `keystroke.dfy` and `prompt.dfy`: keystrokes and the two prompt loops.

Two behaviours are modelled exactly as the code has them:

- `read_line` cuts input longer than 511 bytes at 511 bytes and returns success; it has no
  overflow error. Its documentation says so (src/tty/password.rs:48-49).
- `raw_mode` clears the whole `CS8` character-size field (`c_cflag &= !CS8`,
  src/tty.rs:172) rather than selecting 8-bit characters.

## Model

| member | source | states |
|---|---|---|
| Termios.ClearBits | src/tty.rs:167-175 | the result has every mask bit off and every other bit as in the input |
| Termios.SetBits | src/tty.rs:181-187 | the result has every mask bit on and every other bit as in the input |
| Termios.ClearedIsExact | src/tty.rs:190-194 | "mask bits off, others unchanged" holds of exactly one word, the one `&= !mask` produces |
| Termios.RaisedIsExact | src/tty.rs:204-209 | "mask bits on, others unchanged" holds of exactly one word, the one `\|= mask` produces |
| Modes.RawMode | src/tty.rs:167-175 | clears IXON, ICRNL, BRKINT, INPCK, ISTRIP, INLCR in the input flags, ECHO, ICANON, IEXTEN, ISIG in the local flags, OPOST and CS8; every other bit and the control characters are kept |
| Modes.CookedMode | src/tty.rs:181-187 | raises IUTF8 and ECHO, ECHONL, ICANON; output, control flags and control characters untouched |
| Modes.DisableOutputProcessing | src/tty.rs:190-194 | only OPOST changes, to off |
| Modes.EnableOutputProcessing | src/tty.rs:204-209 | only OPOST changes, to on |
| Modes.EnableEcho | src/tty.rs:212-217 | only ECHO and ECHONL change, to on |
| Modes.DisableEcho | src/tty.rs:220-225 | only ECHO and ECHONL change, to off |
| Modes.PasswordMode | src/tty.rs:228-234 | ECHO off, ECHONL and ICANON on, nothing else changes |
| Modes.DisableFlowControl | src/tty.rs:236-241 | only IXON changes, to off |
| Modes.EnableFlowControl | src/tty.rs:243-248 | only IXON changes, to on |
| Modes.Tenths | src/tty.rs:252-259 | the timeout in tenths of a second lies in 1..255: under 100 ms gives 1, 25.6 s or more gives 255, otherwise the whole number of tenths |
| Modes.InputTimeout | src/tty.rs:252-264 | VMIN becomes 0 and VTIME the clamped tenths; flags and other control characters unchanged |
| Modes.DisableInputTimeout | src/tty.rs:266-272 | VMIN becomes 1 and VTIME 0; nothing else changes |
| Modes.CookedDoesNotUndoRaw | src/tty.rs:176-187 | cooked mode after raw mode leaves output processing off, so it does not give back a terminal that had OPOST on |
| Modes.EchoTogglesAreInverse | src/tty.rs:212-225 | enabling echo after disabling it gives back a terminal whose echo bits were on, and conversely |
| Modes.OutputProcessingTogglesAreInverse | src/tty.rs:190-209 | enabling output processing after disabling it gives back a terminal that had OPOST on, and conversely |
| Modes.FlowControlTogglesAreInverse | src/tty.rs:236-248 | enabling flow control after disabling it gives back a terminal that had IXON on, and conversely |
| Modes.PasswordModeIgnoresEchoState | src/tty.rs:212-234 | password mode gives the same attributes whether echo was enabled or disabled before |
| Modes.TenthsMonotonic | src/tty.rs:252-259 | a longer duration never gives a shorter timeout |
| Modes.TenthsExamples | src/tty.rs:250-259 | 0 ms and 99 ms give 1, 1500 and 1599 ms give 15, 25599 ms and 50 s give 255 |
| Modes.DisableInputTimeoutUndoesTimeout | src/tty.rs:252-272 | disabling the timeout after setting one yields the same attributes as disabling it directly |
| Tty.AsFlag | src/tty.rs:31-39 | TCSANOW, TCSADRAIN, TCSAFLUSH map to 0, 1, 2, each value to exactly one action |
| Tty.New | src/tty.rs:137-144 | succeeds exactly when the device answers; both snapshots are then the device's attributes, otherwise the error is the device's |
| Tty.Save | src/tty.rs:152-156 | on success both snapshots become the device's attributes; on failure the session is unchanged |
| Tty.Set | src/tty.rs:274-276 | succeeds exactly when the device accepts; the device then holds the working attributes, otherwise it is unchanged |
| Tty.Reset | src/tty.rs:278-281 | the working attributes become the original ones, and on success the device holds them |
| Tty.Run | src/tty.rs:159-281 | a run of mode changes and commits without a re-save keeps the original snapshot and never changes whether the device answers |
| Tty.ResetRestoresCapturedAttrs | src/tty.rs:137-144 | after `new`, any run of mode changes and commits followed by `reset` leaves the device with the attributes `new` captured |
| Tty.ResetAfterSaveKeepsDevice | src/tty.rs:152-156 | `reset` right after `save` leaves the device as it was |
| Tty.ModeIsIdempotent | src/tty.rs:167-272 | applying any mode method twice has the effect of applying it once |
| Tty.PromptForPassword | src/tty.rs:295-303 | on success the device is back at the original attributes and the password is what `read_line` reads into a fresh buffer; it succeeds exactly when the device answers, the prompt is written and the read succeeds; a refusing device is left unchanged and its error returned; a failed prompt or read returns that error and leaves the device in password mode; on every failure the session's working attributes are left in password mode |
| Tty.PromptLeavesEchoOffOnReadFailure | src/tty.rs:295-303 | a failed read leaves the device with ECHO off and ECHONL, ICANON on, so a terminal that echoed before is not restored |
| Passwords.New | src/tty/password.rs:29-33 | a new buffer is 512 zero bytes |
| Passwords.ReadLineFrom | src/tty/password.rs:50-70 | the read loop never writes the last byte nor the bytes before the current index |
| Passwords.ReadLine | src/tty/password.rs:50-70 | `read_line` never writes the last byte of the buffer |
| Passwords.ReadLineInPlace | src/tty/password.rs:50-70 | the loop that fills the buffer in place computes what the recursive definition does, and keeps the last byte |
| Passwords.FirstNul | src/tty/password.rs:39-42 | finds the first NUL byte, or reports that there is none |
| Passwords.AsCstr | src/tty/password.rs:39-42 | defined exactly when the buffer holds a NUL; the result is the buffer up to and including the first NUL |
| Passwords.AsBytes | src/tty/password.rs:73-75 | the bytes before the first NUL: no NUL inside, and a NUL right after them in the buffer |
| Passwords.AsStr | src/tty/password.rs:44-46 | when valid, the string's UTF-8 encoding is exactly the secret's bytes; when not, the error's offset is inside the secret and the bytes before it are valid |
| Passwords.AsStrAcceptsUtf8 | src/tty/password.rs:43-46 | a secret that is the UTF-8 encoding of some text reads back as exactly that text |
| Passwords.Drop | src/tty/password.rs:90-92 | every byte of the dropped buffer is zero |
| Passwords.ReadLineKeepsTerminator | src/tty/password.rs:47-70 | whatever the reader returns, the buffer read into a fresh password still ends in NUL, so `as_cstr` cannot panic |
| Passwords.NewlineEndsLine | src/tty/password.rs:58-62 | a chunk ending in a newline ends the read with success, and the newline becomes NUL |
| Passwords.InteriorNewlineKept | src/tty/password.rs:58-62 | a newline that is not the last byte of a chunk is stored as is |
| Passwords.EndOfInputWritesNothing | src/tty/password.rs:54-57 | a zero-length read ends with success and the buffer unchanged |
| Passwords.ReadFailureReturnsAtOnce | src/tty/password.rs:53-54 | a failed read call ends `read_line` at once with that error and the buffer as it was |
| Passwords.FullBufferEndsLine | src/tty/password.rs:58-66 | a chunk that reaches the last byte without ending in a newline is stored and ends the read with success |
| Passwords.FailureKeepsStoredBytes | src/tty/password.rs:53-54 | a failed read returns the error and leaves earlier chunks in the buffer |
| Passwords.ErrorsComeFromTheReader | src/tty/password.rs:50-70 | `read_line` fails only with an error some call to the reader returned |
| Passwords.SecretEndsAtFirstNul | src/tty/password.rs:73-75 | the secret is the buffer before the first NUL |
| Passwords.HelloExample | src/tty/password.rs:47-70 | reading `hello\n` yields the secret `hello` |
| Passwords.TruncationExample | src/tty/password.rs:47-70 | reading 600 bytes with no newline keeps the first 511 and succeeds |
| Passwords.DropLeavesNoSecret | src/tty/password.rs:90-92 | after drop the buffer equals a fresh one and the secret is empty |
| Passwords.StoreThroughMutSlice | src/tty/password.rs:86-88 | a write through the slice changes exactly the bytes it covers, which may include the last byte |
| Passwords.StoreThroughBoundedSlice | src/tty/password.rs:76-78 | a write through a 511-byte slice changes only the bytes it covers and keeps the last byte NUL |
| Passwords.MutSliceCanRemoveTerminator | src/tty/password.rs:76-88 | a 512-byte write of non-NUL bytes through the slice leaves no NUL, so `as_cstr` panics |
| Passwords.BoundedSliceKeepsTerminator | src/tty/password.rs:76-78 | any write through a 511-byte slice keeps the last byte NUL, so `as_cstr` stays defined |
| Utf8.DecodeFirst | src/tty/password.rs:44-46 | the length of the first scalar value's encoding is between 1 and 4 and fits in the input |
| Utf8.Decode | src/tty/password.rs:44-46 | a decoding error reports an offset inside the input |
| Utf8.EncodeChar | src/tty/password.rs:44-46 | a character encodes to 1 to 4 bytes |
| Utf8.DecodeFirstOfEncodeChar | src/tty/password.rs:44-46 | the first character decoded from an encoding followed by anything is the character encoded, with its length |
| Utf8.DecodeEncode | src/tty/password.rs:44-46 | decoding an encoded string gives it back |
| Utf8.EncodeCharOfDecodeFirst | src/tty/password.rs:44-46 | a decoded character re-encodes to exactly the bytes it came from |
| Utf8.EncodeDecode | src/tty/password.rs:44-46 | bytes that decode are the encoding of the decoded string |
| Utf8.ValidUpToIsValid | src/tty/password.rs:44-46 | the bytes before a reported error offset decode |
| Utf8.DecodeFirstOfExtension | src/tty/password.rs:44-46 | a well-formed first sequence stays the first character whatever bytes follow |
| Utf8.ValidUpToIsLongest | src/tty/password.rs:44-46 | every prefix longer than the reported error offset fails to decode, so the offset marks the longest valid prefix |
| Keystrokes.IsCtrlC | src/lib.rs:15-17 | the Ctrl-C byte pattern is exactly the keystroke whose value is 3 |
| Keystrokes.IsEsc | src/lib.rs:18-20 | the Esc byte pattern is exactly the keystroke whose value is 27, so Esc followed by more bytes is not Esc |
| Keystrokes.IsEnter | src/lib.rs:21-23 | Enter is every keystroke whose value has 13 as its low byte |
| Keystrokes.Value | src/lib.rs:24-26 | the four bytes read as a 32-bit unsigned number |
| Keystrokes.AsChar | src/lib.rs:24-26 | a character exactly when the little-endian value is a Unicode scalar value, and then that value |
| Keystrokes.AsCharFromChar | src/lib.rs:24-26 | every character is recovered from its four little-endian bytes |
| Keystrokes.FromCharAsChar | src/lib.rs:24-26 | a keystroke that reads as a character holds exactly that character's bytes |
| Keystrokes.NamedKeysAreExclusive | src/lib.rs:15-23 | no keystroke is two of Ctrl-C, Esc and Enter |
| Keystrokes.NamedKeysAreChars | src/lib.rs:15-26 | Ctrl-C and Esc read as U+0003 and U+001B |
| Keystrokes.EnterCharEndsInCarriageReturn | src/lib.rs:21-26 | a character read from an Enter keystroke has 13 as its low byte |
| Keystrokes.Examples | src/lib.rs:13-27 | `A`, NUL, a surrogate and a value past U+10FFFF decode as expected; Esc followed by more bytes is not Esc; Enter ignores trailing bytes |
| Prompts.YnStep | src/lib.rs:81-93 | a keystroke answers yes exactly when it is Enter with default yes, or y/Y when Enter-with-a-default does not apply; likewise for no |
| Prompts.EnterWithoutDefaultRetries | src/lib.rs:82-93 | with no default, Enter is never taken as y, Y, n or N, so the prompt asks again |
| Prompts.EnterTakesDefault | src/lib.rs:82-86 | with a default, Enter answers it |
| Prompts.YnLoop | src/lib.rs:69-95 | the prompt only panics on a failed keystroke read; it is still waiting exactly when every keystroke so far was read and undecided |
| Prompts.YnAnswerIsFirstDecision | src/lib.rs:69-95 | the answer is the decision of the first decisive keystroke, all earlier ones having been read and undecided |
| Prompts.YnPanicIsFirstFailure | src/lib.rs:69-95 | a panic carries the error of the first failed keystroke read, all earlier keystrokes having been read and undecided |
| Prompts.Hotkeys | src/lib.rs:111-121 | a menu has at most one option per line |
| Prompts.HotkeysOnePerLine | src/lib.rs:111-121 | every non-empty line gives one option and blank lines give none |
| Prompts.HotkeysOfConcat | src/lib.rs:111-121 | the options of a menu are those of its first part followed by those of the rest |
| Prompts.HotkeysComeFromLines | src/lib.rs:111-121 | every option is the first character of some menu line |
| Prompts.CollectChoices | src/lib.rs:108-121 | succeeds exactly when the options are distinct, returning them in order; otherwise panics naming the first repeated option |
| Prompts.CheckDefault | src/lib.rs:122-127 | accepts exactly when there is no default or it is an option, otherwise names the default |
| Prompts.MenuStep | src/lib.rs:135-144 | a keystroke decides exactly when it is Enter with a default or reads as an option; Enter with a default answers the default, any other decision is the character read |
| Prompts.MenuAnswersAreOptions | src/lib.rs:122-144 | once the default is checked, every answer is an option |
| Prompts.MenuLoop | src/lib.rs:128-145 | answers are options, the only panic is a failed read, and it waits exactly when every keystroke was read and undecided |
| Prompts.MenuAnswerIsFirstDecision | src/lib.rs:128-145 | the answer is the decision of the first decisive keystroke, all earlier ones having been read and undecided |
| Prompts.MenuPanicIsFirstFailure | src/lib.rs:128-145 | a panic carries the error of the first failed keystroke read, all earlier keystrokes having been read and undecided |
| Prompts.PromptMenu | src/lib.rs:103-146 | a duplicate option panics, naming the first repeat; an unlisted default panics exactly when the options are distinct; an answer is the first character of a menu line; with distinct options and a listed default the outcome is that of the keystroke loop on the collected options |
| Prompts.HotkeysExample | src/lib.rs:111-121 | blank lines contribute no option; two lines starting with `a` repeat an option |
| Prompts.MenuLoopExample | src/lib.rs:128-145 | Enter takes default `b`; `x` is refused and then `c` is chosen; Enter without a default keeps waiting |

## Left out

- FFI wrappers `get_termios`, `set_termios`, `isatty` and `io_result` (src/tty.rs:307-330) are folded into the `Device` value: a fault makes every call fail, otherwise calls succeed.
- Tty.PromptForPassword: a device either accepts every attribute call or refuses every one, so the path where the final `reset` fails after a successful `set` is not reachable in the model.
- `is_a_tty` and `with_termios` are not modelled separately: `is_a_tty` is `GetAttrs` succeeding, and `with_termios` is the working-copy update every mode function performs.
- The `Read`/`Write` delegation of `Term` and the prompt text written in `prompt_for_password` are I/O; whether the write succeeded is a parameter.
- `set_tty`, `set_tty_raw_noecho`, `set_tty_cooked`, `keystroke`, `keystroke_noecho`, `get_raw_keystroke` and `press_any_key` spawn `stty` and read standard input. The prompts take their keystrokes as a sequence instead.
- The printed prompt and menu text of `prompt_yn` and `prompt_menu`, `underscored_heading`, and the doas helpers (`ensure_running_doas`, `doas`) are process and console I/O.
- Tty.Set: the flushing and draining that TCSAFLUSH and TCSADRAIN ask of the kernel's buffers is not modelled; only the attribute change is.
- The `c_line`, `c_ispeed` and `c_ospeed` fields of `termios` are not touched by the library and are not part of `Attrs`.
- Passwords.Drop: the compiler and memory fences after zeroing are not modelled; only the zeroed buffer is.
- Utf8.Decode: the `error_len` part of `Utf8Error` is not modelled; only `valid_up_to` is.
- Keystrokes.Value: assumes a little-endian target. `from_ne_bytes` uses the machine's byte order, so on a big-endian Linux target (s390x, powerpc64) `as_char` reads the four bytes the other way round.

## Findings

| source | as written | input that shows it | evidently intended | confidence | as-written member | corrected member |
|---|---|---|---|---|---|---|
| src/tty/password.rs:76-88 | `as_mut_slice` returns the whole 512-byte buffer | writing 512 non-NUL bytes through the slice; `as_cstr` then finds no NUL and panics | the slice is one byte shorter than the buffer, so the last byte stays NUL | not executed | Passwords.MutSliceCanRemoveTerminator | Passwords.BoundedSliceKeepsTerminator |
