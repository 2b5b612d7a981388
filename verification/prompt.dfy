/** `prompt_yn` and `prompt_menu` (src/lib.rs): the decision each keystroke
    leads to, and the loops that keep asking until one decides. Keystrokes
    are supplied as the sequence of replies the terminal gives; a reply
    that is an error is the `unwrap` panic of the source. */
module Prompts {
  import opened Io
  import opened Wrappers
  import opened Keystrokes

  /** What one keystroke leads to inside a prompt loop. */
  datatype Decision<T> = Return(value: T) | Retry

  /** How a prompt ends on a finite run of keystrokes: the answer, a
      panic, or still waiting when the keystrokes run out. */
  datatype Outcome<T> = Answered(value: T) | Panicked(reason: Panic) | Waiting

  datatype Panic =
    | DuplicateOption(option: char)
    | DefaultNotListed(default: char)
    | KeystrokeFailed(error: IoError)

  // ----- prompt_yn -----

  predicate IsYes(c: char) { c == 'y' || c == 'Y' }
  predicate IsNo(c: char) { c == 'n' || c == 'N' }

  /** One pass of the `prompt_yn` loop. */
  function YnStep(default: Option<bool>, k: Keystroke): (r: Decision<bool>)
    ensures r == Return(true) <==>
      (IsEnter(k) && default == Some(true))
      || (!(IsEnter(k) && default.Some?) && AsChar(k).Some? && IsYes(AsChar(k).value))
    ensures r == Return(false) <==>
      (IsEnter(k) && default == Some(false))
      || (!(IsEnter(k) && default.Some?) && AsChar(k).Some? && IsNo(AsChar(k).value))
  {
    if IsEnter(k) && default.Some? then Return(default.value)
    else match AsChar(k)
      case Some(c) =>
        if IsYes(c) then Return(true)
        else if IsNo(c) then Return(false)
        else Retry
      case None => Retry
  }

  /** Enter without a default is not an answer: the prompt asks again. */
  lemma EnterWithoutDefaultRetries(k: Keystroke)
    requires IsEnter(k)
    ensures YnStep(None, k) == Retry
  {
    if AsChar(k).Some? {
      EnterCharEndsInCarriageReturn(k);
    }
  }

  /** With a default, Enter answers it whatever else the keystroke holds. */
  lemma EnterTakesDefault(default: bool, k: Keystroke)
    requires IsEnter(k)
    ensures YnStep(Some(default), k) == Return(default)
  {
  }

  /** The `prompt_yn` loop over the keystrokes the terminal delivers. */
  function YnLoop(default: Option<bool>, keys: seq<Result<Keystroke, IoError>>): (r: Outcome<bool>)
    ensures r.Panicked? ==> r.reason.KeystrokeFailed?
    ensures r.Waiting? <==> forall i | 0 <= i < |keys| :: keys[i].Ok? && YnStep(default, keys[i].value) == Retry
    decreases |keys|
  {
    if |keys| == 0 then Waiting
    else match keys[0]
      case Err(e) => Panicked(KeystrokeFailed(e))
      case Ok(k) =>
        match YnStep(default, k)
          case Return(b) => Answered(b)
          case Retry =>
            var rest := YnLoop(default, keys[1..]);
            assert forall i | 1 <= i < |keys| :: keys[i] == keys[1..][i - 1];
            rest
  }

  /** The answer of `prompt_yn` is the decision of the first keystroke that
      is not a retry, and every keystroke before it was read successfully. */
  lemma {:induction false} YnAnswerIsFirstDecision(default: Option<bool>, keys: seq<Result<Keystroke, IoError>>)
    requires YnLoop(default, keys).Answered?
    ensures exists i | 0 <= i < |keys| ::
      keys[i].Ok? && YnStep(default, keys[i].value) == Return(YnLoop(default, keys).value)
      && forall j | 0 <= j < i :: keys[j].Ok? && YnStep(default, keys[j].value) == Retry
    decreases |keys|
  {
    var b := YnLoop(default, keys).value;
    if YnStep(default, keys[0].value) == Retry {
      YnAnswerIsFirstDecision(default, keys[1..]);
      var i :| 0 <= i < |keys[1..]| && keys[1..][i].Ok? && YnStep(default, keys[1..][i].value) == Return(b)
        && forall j | 0 <= j < i :: keys[1..][j].Ok? && YnStep(default, keys[1..][j].value) == Retry;
      assert keys[i + 1] == keys[1..][i];
      forall j | 0 <= j < i + 1
        ensures keys[j].Ok? && YnStep(default, keys[j].value) == Retry
      {
        if j > 0 {
          assert keys[j] == keys[1..][j - 1];
        }
      }
    } else {
      assert keys[0].Ok? && YnStep(default, keys[0].value) == Return(b);
    }
  }

  /** A panic of `prompt_yn` carries the error of the first failed
      keystroke read, every keystroke before it having been read and
      undecided. */
  lemma {:induction false} YnPanicIsFirstFailure(default: Option<bool>, keys: seq<Result<Keystroke, IoError>>)
    requires YnLoop(default, keys).Panicked?
    ensures exists i | 0 <= i < |keys| ::
      keys[i] == Err(YnLoop(default, keys).reason.error)
      && forall j | 0 <= j < i :: keys[j].Ok? && YnStep(default, keys[j].value) == Retry
    decreases |keys|
  {
    var e := YnLoop(default, keys).reason.error;
    if keys[0].Ok? {
      YnPanicIsFirstFailure(default, keys[1..]);
      var i :| 0 <= i < |keys[1..]| && keys[1..][i] == Err(e)
        && forall j | 0 <= j < i :: keys[1..][j].Ok? && YnStep(default, keys[1..][j].value) == Retry;
      assert keys[i + 1] == keys[1..][i];
      forall j | 0 <= j < i + 1
        ensures keys[j].Ok? && YnStep(default, keys[j].value) == Retry
      {
        if j > 0 {
          assert keys[j] == keys[1..][j - 1];
        }
      }
    } else {
      assert keys[0] == Err(e);
    }
  }

  // ----- prompt_menu -----

  /** The option characters of a menu: the first character of every
      non-empty line, in order. */
  function Hotkeys(menu: seq<string>): (r: seq<char>)
    ensures |r| <= |menu|
  {
    if |menu| == 0 then []
    else
      var last := menu[|menu| - 1];
      Hotkeys(menu[..|menu| - 1]) + (if |last| > 0 then [last[0]] else [])
  }

  predicate Distinct(s: seq<char>) {
    forall i, j | 0 <= i < j < |s| :: s[i] != s[j]
  }

  /** `c` is the first option in `s` that repeats an earlier one. */
  predicate FirstRepeat(s: seq<char>, c: char) {
    exists n | 0 <= n < |s| :: s[n] == c && c in s[..n] && Distinct(s[..n])
  }

  /** The hotkeys of a menu are those of its two halves, in order. */
  lemma {:induction false} HotkeysOfConcat(a: seq<string>, b: seq<string>)
    ensures Hotkeys(a + b) == Hotkeys(a) + Hotkeys(b)
    decreases |b|
  {
    if |b| == 0 {
      assert a + b == a;
    } else {
      var b' := b[..|b| - 1];
      assert (a + b)[..|a + b| - 1] == a + b';
      HotkeysOfConcat(a, b');
    }
  }

  /** Every non-empty line gives one option and a blank line none. */
  lemma {:induction false} HotkeysOnePerLine(menu: seq<string>)
    ensures (forall i | 0 <= i < |menu| :: |menu[i]| > 0) ==> |Hotkeys(menu)| == |menu|
    ensures (forall i | 0 <= i < |menu| :: |menu[i]| == 0) ==> Hotkeys(menu) == []
    decreases |menu|
  {
    if |menu| > 0 {
      var front := menu[..|menu| - 1];
      HotkeysOnePerLine(front);
      assert forall i | 0 <= i < |front| :: front[i] == menu[i];
    }
  }

  /** Every hotkey is the first character of some menu line. */
  lemma {:induction false} HotkeysComeFromLines(menu: seq<string>, c: char)
    requires c in Hotkeys(menu)
    ensures exists i | 0 <= i < |menu| :: |menu[i]| > 0 && menu[i][0] == c
    decreases |menu|
  {
    var front := menu[..|menu| - 1];
    var last := menu[|menu| - 1];
    if c in Hotkeys(front) {
      HotkeysComeFromLines(front, c);
      var i :| 0 <= i < |front| && |front[i]| > 0 && front[i][0] == c;
      assert menu[i] == front[i];
    } else {
      assert |last| > 0 && last[0] == c;
    }
  }

  /** The first loop of `prompt_menu`: collect the options, panicking on
      the first one that is already listed. */
  method CollectChoices(menu: seq<string>) returns (r: Result<string, Panic>)
    ensures r.Ok? <==> Distinct(Hotkeys(menu))
    ensures r.Ok? ==> r.value == Hotkeys(menu)
    ensures r.Err? ==> r.error.DuplicateOption? && FirstRepeat(Hotkeys(menu), r.error.option)
  {
    var choices: string := [];
    var i := 0;
    while i < |menu|
      invariant 0 <= i <= |menu|
      invariant choices == Hotkeys(menu[..i])
      invariant Distinct(choices)
    {
      var line := menu[i];
      assert menu[..i + 1][..i] == menu[..i];
      if |line| > 0 {
        var opt := line[0];
        if opt in choices {
          var all := Hotkeys(menu);
          assert menu[..i + 1] + menu[i + 1..] == menu;
          HotkeysOfConcat(menu[..i + 1], menu[i + 1..]);
          var n := |choices|;
          assert all[..n] == choices && all[n] == opt;
          var m :| 0 <= m < n && choices[m] == opt;
          assert all[m] == opt;
          assert FirstRepeat(all, opt);
          return Err(DuplicateOption(opt));
        }
        choices := choices + [opt];
      }
      i := i + 1;
    }
    assert menu[..i] == menu;
    return Ok(choices);
  }

  /** The check after the first loop: a default must be one of the options. */
  function CheckDefault(default: Option<char>, choices: string): (r: Result<(), Panic>)
    ensures r.Ok? <==> (default.Some? ==> default.value in choices)
    ensures r.Err? ==> r.error == DefaultNotListed(default.value)
  {
    match default
      case Some(d) => if d in choices then Ok(()) else Err(DefaultNotListed(d))
      case None => Ok(())
  }

  /** One pass of the second loop of `prompt_menu`. */
  function MenuStep(default: Option<char>, choices: string, k: Keystroke): (r: Decision<char>)
    ensures r.Return? <==>
      (IsEnter(k) && default.Some?) || (AsChar(k).Some? && AsChar(k).value in choices)
    ensures IsEnter(k) && default.Some? ==> r == Return(default.value)
    ensures r.Return? && !(IsEnter(k) && default.Some?) ==> AsChar(k) == Some(r.value)
  {
    if IsEnter(k) && default.Some? then Return(default.value)
    else match AsChar(k)
      case Some(c) => if c in choices then Return(c) else Retry
      case None => Retry
  }

  /** Once the default is known to be listed, every answer is an option. */
  lemma MenuAnswersAreOptions(default: Option<char>, choices: string, k: Keystroke)
    requires CheckDefault(default, choices).Ok?
    requires MenuStep(default, choices, k).Return?
    ensures MenuStep(default, choices, k).value in choices
  {
  }

  /** The second loop of `prompt_menu` over the keystrokes delivered. */
  function MenuLoop(default: Option<char>, choices: string, keys: seq<Result<Keystroke, IoError>>): (r: Outcome<char>)
    requires CheckDefault(default, choices).Ok?
    ensures r.Answered? ==> r.value in choices
    ensures r.Panicked? ==> r.reason.KeystrokeFailed?
    ensures r.Waiting? <==> forall i | 0 <= i < |keys| :: keys[i].Ok? && MenuStep(default, choices, keys[i].value) == Retry
    decreases |keys|
  {
    if |keys| == 0 then Waiting
    else match keys[0]
      case Err(e) => Panicked(KeystrokeFailed(e))
      case Ok(k) =>
        match MenuStep(default, choices, k)
          case Return(c) => Answered(c)
          case Retry =>
            var rest := MenuLoop(default, choices, keys[1..]);
            assert forall i | 1 <= i < |keys| :: keys[i] == keys[1..][i - 1];
            rest
  }

  /** The answer of the menu loop is the decision of the first keystroke
      that is not a retry, and every keystroke before it was read. */
  lemma {:induction false} MenuAnswerIsFirstDecision(default: Option<char>, choices: string, keys: seq<Result<Keystroke, IoError>>)
    requires CheckDefault(default, choices).Ok?
    requires MenuLoop(default, choices, keys).Answered?
    ensures exists i | 0 <= i < |keys| ::
      keys[i].Ok? && MenuStep(default, choices, keys[i].value) == Return(MenuLoop(default, choices, keys).value)
      && forall j | 0 <= j < i :: keys[j].Ok? && MenuStep(default, choices, keys[j].value) == Retry
    decreases |keys|
  {
    var c := MenuLoop(default, choices, keys).value;
    if MenuStep(default, choices, keys[0].value) == Retry {
      MenuAnswerIsFirstDecision(default, choices, keys[1..]);
      var i :| 0 <= i < |keys[1..]| && keys[1..][i].Ok? && MenuStep(default, choices, keys[1..][i].value) == Return(c)
        && forall j | 0 <= j < i :: keys[1..][j].Ok? && MenuStep(default, choices, keys[1..][j].value) == Retry;
      assert keys[i + 1] == keys[1..][i];
      forall j | 0 <= j < i + 1
        ensures keys[j].Ok? && MenuStep(default, choices, keys[j].value) == Retry
      {
        if j > 0 {
          assert keys[j] == keys[1..][j - 1];
        }
      }
    } else {
      assert keys[0].Ok? && MenuStep(default, choices, keys[0].value) == Return(c);
    }
  }

  /** A panic of the menu loop carries the error of the first failed
      keystroke read, every keystroke before it having been read and
      undecided. */
  lemma {:induction false} MenuPanicIsFirstFailure(default: Option<char>, choices: string, keys: seq<Result<Keystroke, IoError>>)
    requires CheckDefault(default, choices).Ok?
    requires MenuLoop(default, choices, keys).Panicked?
    ensures exists i | 0 <= i < |keys| ::
      keys[i] == Err(MenuLoop(default, choices, keys).reason.error)
      && forall j | 0 <= j < i :: keys[j].Ok? && MenuStep(default, choices, keys[j].value) == Retry
    decreases |keys|
  {
    var e := MenuLoop(default, choices, keys).reason.error;
    if keys[0].Ok? {
      MenuPanicIsFirstFailure(default, choices, keys[1..]);
      var i :| 0 <= i < |keys[1..]| && keys[1..][i] == Err(e)
        && forall j | 0 <= j < i :: keys[1..][j].Ok? && MenuStep(default, choices, keys[1..][j].value) == Retry;
      assert keys[i + 1] == keys[1..][i];
      forall j | 0 <= j < i + 1
        ensures keys[j].Ok? && MenuStep(default, choices, keys[j].value) == Retry
      {
        if j > 0 {
          assert keys[j] == keys[1..][j - 1];
        }
      }
    } else {
      assert keys[0] == Err(e);
    }
  }

  /** `prompt_menu`: collect and check the options, then read keystrokes
      until one decides. */
  method PromptMenu(default: Option<char>, menu: seq<string>, keys: seq<Result<Keystroke, IoError>>)
    returns (r: Outcome<char>)
    ensures !Distinct(Hotkeys(menu)) <==> r.Panicked? && r.reason.DuplicateOption?
    ensures r.Panicked? && r.reason.DuplicateOption? ==> FirstRepeat(Hotkeys(menu), r.reason.option)
    ensures r.Panicked? && r.reason.DefaultNotListed? <==>
      Distinct(Hotkeys(menu)) && default.Some? && default.value !in Hotkeys(menu)
    ensures r.Panicked? && r.reason.DefaultNotListed? ==> default == Some(r.reason.default)
    ensures r.Answered? ==> exists i | 0 <= i < |menu| :: |menu[i]| > 0 && menu[i][0] == r.value
    ensures r.Answered? && default.Some? ==> default.value in Hotkeys(menu)
    ensures Distinct(Hotkeys(menu)) && CheckDefault(default, Hotkeys(menu)).Ok? ==>
      r == MenuLoop(default, Hotkeys(menu), keys)
  {
    var collected := CollectChoices(menu);
    if collected.Err? {
      return Panicked(collected.error);
    }
    var choices := collected.value;
    var checked := CheckDefault(default, choices);
    if checked.Err? {
      return Panicked(checked.error);
    }
    r := MenuLoop(default, choices, keys);
    if r.Answered? {
      HotkeysComeFromLines(menu, r.value);
    }
  }

  /** Worked example: the options of a menu with a blank line. */
  lemma HotkeysExample()
    ensures Hotkeys(["add", "", "bye", "cat"]) == "abc"
    ensures !Distinct(Hotkeys(["add", "all"]))
  {
    var m: seq<string> := ["add", "", "bye", "cat"];
    assert m[..3] == ["add", "", "bye"] && m[..3][..2] == ["add", ""] && m[..3][..2][..1] == ["add"];
    assert Hotkeys(["add"]) == "a";
    assert Hotkeys(["add", ""]) == "a";
    assert Hotkeys(["add", "", "bye"]) == "ab";
    var d: seq<string> := ["add", "all"];
    assert d[..1] == ["add"];
    assert Hotkeys(d) == "aa";
    assert Hotkeys(d)[0] == Hotkeys(d)[1];
  }

  /** Worked example: options a, b and c with default b. */
  lemma MenuLoopExample()
    ensures MenuLoop(Some('b'), "abc", [Ok(Keystroke([13, 0, 0, 0]))]) == Answered('b')
    ensures MenuLoop(Some('b'), "abc", [Ok(Keystroke([120, 0, 0, 0])), Ok(Keystroke([99, 0, 0, 0]))]) == Answered('c')
    ensures MenuLoop(None, "abc", [Ok(Keystroke([13, 0, 0, 0]))]) == Waiting
  {
    var keys: seq<Result<Keystroke, IoError>> := [Ok(Keystroke([120, 0, 0, 0])), Ok(Keystroke([99, 0, 0, 0]))];
    assert AsChar(Keystroke([120, 0, 0, 0])) == Some('x');
    assert MenuStep(Some('b'), "abc", Keystroke([120, 0, 0, 0])) == Retry;
    assert keys[1..] == [Ok(Keystroke([99, 0, 0, 0]))];
    assert AsChar(Keystroke([99, 0, 0, 0])) == Some('c');
    assert AsChar(Keystroke([13, 0, 0, 0])) == Some('\r');
  }
}
