/**
 * The minibuffer read loops of GNU Zile (src/minibuf.c).
 *
 * The terminal is replaced by an input script: each element is what one call
 * of term_minibuf_read (or getkey) returns, None standing for a cancelled read
 * (a NULL string).  Everything the loops do to the outside world -- prompts,
 * messages, keyboard_quit, popping up completions, appending to a history --
 * is returned as a sequence of Effects.  The Lua completion engine is an
 * oracle (Completer): completion_try and minibuf_test_in_completions are
 * functions of the candidate list and the typed text.
 *
 * Each loop is specified by one generic function, RetryLoop: attempt k
 * consumes input k and either ends the loop with a value or asks for a retry.
 */
module Minibuf {
  import opened Wrappers

  /** ULONG_MAX and SIZE_MAX on an LP64 platform, where both are 2^64 - 1. */
  const ULONG_MAX: nat := 0xFFFF_FFFF_FFFF_FFFF
  const SIZE_MAX: nat := 0xFFFF_FFFF_FFFF_FFFF

  /** The cursor position (size_t) -1 that the read loops pass: "at the end". */
  const END_POS: nat := SIZE_MAX

  const NUMBER_ERR := "Please enter a number."
  const YN_ERR := "Please answer y or n.  "
  const YESNO_ERR := "Please answer yes or no."

  /** A key as getkey returns it: a plain character, a control chord, or anything else. */
  datatype Key = Plain(c: char) | Ctrl(c: char) | Other(code: nat)

  /** The answers of completion_try. */
  datatype CompletionResult = Matched(text: string) | NonUnique | NotMatched

  /** The history lists a read can append to. */
  datatype HistoryId = FilesHistory | FunctionsHistory

  /** What a read loop does to the outside world, in order. */
  datatype Effect =
    | Read(prompt: string, value: string, pos: nat)   // a call of term_minibuf_read
    | Write(text: string)                             // minibuf_write
    | Error(fmt: string, arg: Option<string>)         // minibuf_error (message and bell)
    | KeyboardQuit                                    // FUNCALL (keyboard_quit)
    | PopupCompletion                                 // popup_completion (cp)
    | AddHistory(history: HistoryId, entry: string)   // add_history_element (hp, s)
    | Clear                                           // minibuf_clear
    | WaitKey                                         // waitkey (WAITKEY_DEFAULT)

  /** One attempt: Some(result) ends the loop, None asks for another input. */
  datatype Step<R> = Step(outcome: Option<R>, effects: seq<Effect>)

  /** A finished loop: its result, everything it did, and how many inputs it consumed. */
  datatype Run<R> = Run(result: R, effects: seq<Effect>, used: nat)

  /** Some input at index i or later ends the loop; otherwise the editor would still be waiting. */
  ghost predicate EndsAfter<I, R>(inputs: seq<I>, step: (nat, I) -> Step<R>, i: nat)
  {
    exists j :: i <= j < |inputs| && step(j, inputs[j]).outcome.Some?
  }

  /** The effects of the first n attempts, in order. */
  function Effects<I, R>(inputs: seq<I>, step: (nat, I) -> Step<R>, n: nat): seq<Effect>
    requires n <= |inputs|
  {
    if n == 0 then [] else Effects(inputs, step, n - 1) + step(n - 1, inputs[n - 1]).effects
  }

  /** The first attempt at or after i that yields a result. */
  function FirstEnd<I, R>(inputs: seq<I>, step: (nat, I) -> Step<R>, i: nat): (n: nat)
    requires EndsAfter(inputs, step, i)
    ensures i <= n < |inputs| && step(n, inputs[n]).outcome.Some?
    ensures forall k :: i <= k < n ==> step(k, inputs[k]).outcome.None?
    decreases |inputs| - i
  {
    if step(i, inputs[i]).outcome.Some? then i else FirstEnd(inputs, step, i + 1)
  }

  /**
   * The whole loop: it stops at the first attempt that yields a result,
   * after the effects of every attempt made.
   */
  function RetryLoop<I, R>(inputs: seq<I>, step: (nat, I) -> Step<R>): (r: Run<R>)
    requires EndsAfter(inputs, step, 0)
    ensures 0 < r.used <= |inputs|
    ensures step(r.used - 1, inputs[r.used - 1]).outcome == Some(r.result)
    ensures forall k :: 0 <= k < r.used - 1 ==> step(k, inputs[k]).outcome.None?
    ensures r.effects == Effects(inputs, step, r.used)
  {
    var n := FirstEnd(inputs, step, 0);
    Run(step(n, inputs[n]).outcome.value, Effects(inputs, step, n + 1), n + 1)
  }

  /** The loop stops at attempt n when n is the first attempt that yields a result. */
  lemma RetryLoopStopsAt<I, R>(inputs: seq<I>, step: (nat, I) -> Step<R>, n: nat)
    requires n < |inputs| && step(n, inputs[n]).outcome.Some?
    requires forall k :: 0 <= k < n ==> step(k, inputs[k]).outcome.None?
    ensures EndsAfter(inputs, step, 0)
    ensures RetryLoop(inputs, step) == Run(step(n, inputs[n]).outcome.value, Effects(inputs, step, n + 1), n + 1)
  {
    assert EndsAfter(inputs, step, 0);
    assert FirstEnd(inputs, step, 0) == n;
  }

  /** When every attempt shows exactly one effect, attempt k's effect is at position k. */
  lemma {:induction false} EffectsOfSingleSteps<I, R>(inputs: seq<I>, step: (nat, I) -> Step<R>, n: nat)
    requires n <= |inputs|
    requires forall k :: 0 <= k < n ==> |step(k, inputs[k]).effects| == 1
    ensures |Effects(inputs, step, n)| == n
    ensures forall k :: 0 <= k < n ==> Effects(inputs, step, n)[k] == step(k, inputs[k]).effects[0]
  {
    if n > 0 {
      EffectsOfSingleSteps(inputs, step, n - 1);
    }
  }

  /** How many history appends a sequence of effects holds. */
  function HistoryAppends(effects: seq<Effect>): nat
  {
    if effects == [] then 0
    else HistoryAppends(effects[..|effects| - 1]) + (if effects[|effects| - 1].AddHistory? then 1 else 0)
  }

  lemma {:induction false} HistoryAppendsConcat(a: seq<Effect>, b: seq<Effect>)
    ensures HistoryAppends(a + b) == HistoryAppends(a) + HistoryAppends(b)
    decreases |b|
  {
    if b == [] {
      assert a + b == a;
    } else {
      var b' := b[..|b| - 1];
      assert (a + b)[..|a + b| - 1] == a + b';
      assert (a + b)[|a + b| - 1] == b[|b| - 1];
      HistoryAppendsConcat(a, b');
    }
  }

  lemma {:induction false} HistoryAppendsZero(effects: seq<Effect>)
    requires forall e :: e in effects ==> !e.AddHistory?
    ensures HistoryAppends(effects) == 0
    decreases |effects|
  {
    if effects != [] {
      HistoryAppendsZero(effects[..|effects| - 1]);
    }
  }

  // ---------------------------------------------------------------------
  // minibuf_read_number
  // ---------------------------------------------------------------------

  /** One round of minibuf_read_number's do/while loop. */
  function NumberStep(fmt: string, strtoul: string -> nat, ms: Option<string>): (st: Step<nat>)
    ensures |st.effects| >= 1 && st.effects[0] == Read(fmt, "", END_POS)
    ensures ms.None? ==> st == Step(Some(SIZE_MAX), [Read(fmt, "", END_POS), KeyboardQuit])
    ensures ms == Some("") ==> st == Step(Some(ULONG_MAX - 1), [Read(fmt, "", END_POS)])
    ensures st.outcome.None? <==> ms.Some? && ms.value != "" && strtoul(ms.value) == ULONG_MAX
    ensures st.outcome.None? ==> st.effects == [Read(fmt, "", END_POS), Write(NUMBER_ERR)]
    ensures ms.Some? && st.outcome.Some? ==> st.outcome.value != ULONG_MAX
    // A non-empty answer that parses to anything else is the number read.
    ensures ms.Some? && ms.value != "" && strtoul(ms.value) != ULONG_MAX ==>
              st == Step(Some(strtoul(ms.value)), [Read(fmt, "", END_POS)])
  {
    var read := [Read(fmt, "", END_POS)];
    match ms
    case None => Step(Some(SIZE_MAX), read + [KeyboardQuit])
    case Some(s) =>
      var n := if s == "" then ULONG_MAX - 1 else strtoul(s);
      if n == ULONG_MAX then Step(None, read + [Write(NUMBER_ERR)]) else Step(Some(n), read)
  }

  function NumberSteps(fmt: string, strtoul: string -> nat): (nat, Option<string>) -> Step<nat>
  {
    (k: nat, ms: Option<string>) => NumberStep(fmt, strtoul, ms)
  }

  /** minibuf_read_number: read until the text is not a number that parses to ULONG_MAX. */
  method ReadNumber(fmt: string, inputs: seq<Option<string>>, strtoul: string -> nat)
    returns (n: nat, effects: seq<Effect>)
    requires EndsAfter(inputs, NumberSteps(fmt, strtoul), 0)
    ensures var run := RetryLoop(inputs, NumberSteps(fmt, strtoul));
            n == run.result && effects == run.effects
  {
    ghost var step := NumberSteps(fmt, strtoul);
    var i := 0;
    effects := [];
    while true
      invariant i <= |inputs|
      invariant forall k :: 0 <= k < i ==> step(k, inputs[k]).outcome.None?
      invariant effects == Effects(inputs, step, i)
      invariant EndsAfter(inputs, step, i)
      decreases |inputs| - i
    {
      var ms := inputs[i];
      var round := [Read(fmt, "", END_POS)];
      var done := false;
      if ms == None {
        n := SIZE_MAX;
        round := round + [KeyboardQuit];
        done := true;
      } else {
        if |ms.value| == 0 {
          n := ULONG_MAX - 1;
        } else {
          n := strtoul(ms.value);
        }
        if n == ULONG_MAX {
          round := round + [Write(NUMBER_ERR)];
        } else {
          done := true;
        }
      }
      assert step(i, ms) == NumberStep(fmt, strtoul, ms);
      assert NumberStep(fmt, strtoul, ms) == Step(if done then Some(n) else None, round);
      effects := effects + round;
      i := i + 1;
      if done {
        RetryLoopStopsAt(inputs, step, i - 1);
        break;
      }
    }
  }

  /**
   * What minibuf_read_number returns.  ULONG_MAX comes back exactly when the
   * read was cancelled (on LP64, SIZE_MAX is ULONG_MAX); an empty answer gives
   * ULONG_MAX - 1; any other answer gives the number strtoul parses from it;
   * every earlier input parsed to ULONG_MAX and was answered by
   * "Please enter a number.".
   */
  lemma ReadNumberOutcome(fmt: string, inputs: seq<Option<string>>, strtoul: string -> nat)
    requires EndsAfter(inputs, NumberSteps(fmt, strtoul), 0)
    ensures var run := RetryLoop(inputs, NumberSteps(fmt, strtoul));
            var last := inputs[run.used - 1];
            && (run.result == ULONG_MAX <==> last == None)
            && (last == Some("") ==> run.result == ULONG_MAX - 1)
            && (last.Some? && last.value != "" ==> run.result == strtoul(last.value))
            && (last == None ==> run.effects[|run.effects| - 1] == KeyboardQuit)
            && (forall k :: 0 <= k < run.used - 1 ==>
                  inputs[k].Some? && inputs[k].value != "" && strtoul(inputs[k].value) == ULONG_MAX)
  {
    var step := NumberSteps(fmt, strtoul);
    var run := RetryLoop(inputs, step);
    assert step(run.used - 1, inputs[run.used - 1]) == NumberStep(fmt, strtoul, inputs[run.used - 1]);
    forall k | 0 <= k < run.used - 1
      ensures inputs[k].Some? && inputs[k].value != "" && strtoul(inputs[k].value) == ULONG_MAX
    {
      assert step(k, inputs[k]) == NumberStep(fmt, strtoul, inputs[k]);
    }
  }

  /** Each rejected round of minibuf_read_number shows "Please enter a number." once. */
  lemma {:induction false} NumberPromptsBefore(fmt: string, inputs: seq<Option<string>>, strtoul: string -> nat, n: nat)
    requires n <= |inputs|
    requires forall k :: 0 <= k < n ==> NumberSteps(fmt, strtoul)(k, inputs[k]).outcome.None?
    ensures multiset(Effects(inputs, NumberSteps(fmt, strtoul), n))[Write(NUMBER_ERR)] == n
  {
    if n > 0 {
      NumberPromptsBefore(fmt, inputs, strtoul, n - 1);
      var s := NumberSteps(fmt, strtoul)(n - 1, inputs[n - 1]);
      assert s == NumberStep(fmt, strtoul, inputs[n - 1]);
      assert s.effects == [Read(fmt, "", END_POS), Write(NUMBER_ERR)];
    }
  }

  /** minibuf_read_number says "Please enter a number." exactly once per rejected input. */
  lemma NumberPrompts(fmt: string, inputs: seq<Option<string>>, strtoul: string -> nat)
    requires EndsAfter(inputs, NumberSteps(fmt, strtoul), 0)
    ensures var run := RetryLoop(inputs, NumberSteps(fmt, strtoul));
            multiset(run.effects)[Write(NUMBER_ERR)] == run.used - 1
  {
    var step := NumberSteps(fmt, strtoul);
    var run := RetryLoop(inputs, step);
    var n := run.used - 1;
    NumberPromptsBefore(fmt, inputs, strtoul, n);
    var last := step(n, inputs[n]);
    assert last == NumberStep(fmt, strtoul, inputs[n]);
    match inputs[n]
    case None =>
      assert last.effects == [Read(fmt, "", END_POS), KeyboardQuit];
    case Some(t) =>
      assert last.effects == [Read(fmt, "", END_POS)];
    assert run.effects == Effects(inputs, step, n) + last.effects;
    assert multiset(run.effects) == multiset(Effects(inputs, step, n)) + multiset(last.effects);
  }

  // ---------------------------------------------------------------------
  // minibuf_read_yn
  // ---------------------------------------------------------------------

  /** Round k of minibuf_read_yn: show the prompt (after the complaint, from round 1 on), read one key. */
  function YnStep(fmt: string, k: nat, key: Key): (st: Step<int>)
    ensures st.effects == [Write((if k == 0 then "" else YN_ERR) + fmt)]
    ensures st.outcome == Some(1) <==> key == Plain('y')
    ensures st.outcome == Some(0) <==> key == Plain('n')
    ensures st.outcome == Some(-1) <==> key == Ctrl('g')
    ensures st.outcome.None? <==> key != Plain('y') && key != Plain('n') && key != Ctrl('g')
  {
    var errmsg := if k == 0 then "" else YN_ERR;
    var shown := [Write(errmsg + fmt)];
    if key == Plain('y') then Step(Some(1), shown)
    else if key == Plain('n') then Step(Some(0), shown)
    else if key == Ctrl('g') then Step(Some(-1), shown)
    else Step(None, shown)
  }

  function YnSteps(fmt: string): (nat, Key) -> Step<int>
  {
    (k: nat, key: Key) => YnStep(fmt, k, key)
  }

  /** minibuf_read_yn: 1 for 'y', 0 for 'n', -1 for C-g; any other key asks again. */
  method ReadYn(fmt: string, keys: seq<Key>) returns (r: int, effects: seq<Effect>)
    requires EndsAfter(keys, YnSteps(fmt), 0)
    ensures var run := RetryLoop(keys, YnSteps(fmt));
            r == run.result && effects == run.effects
  {
    ghost var step := YnSteps(fmt);
    var errmsg := "";
    var i := 0;
    effects := [];
    while true
      invariant i <= |keys|
      invariant errmsg == if i == 0 then "" else YN_ERR
      invariant forall k :: 0 <= k < i ==> step(k, keys[k]).outcome.None?
      invariant effects == Effects(keys, step, i)
      invariant EndsAfter(keys, step, i)
      decreases |keys| - i
    {
      var round := [Write(errmsg + fmt)];
      var key := keys[i];
      var done := true;
      if key == Plain('y') {
        r := 1;
      } else if key == Plain('n') {
        r := 0;
      } else if key == Ctrl('g') {
        r := -1;
      } else {
        errmsg := YN_ERR;
        done := false;
      }
      assert step(i, key) == YnStep(fmt, i, key);
      assert YnStep(fmt, i, key) == Step(if done then Some(r) else None, round);
      effects := effects + round;
      i := i + 1;
      if done {
        RetryLoopStopsAt(keys, step, i - 1);
        break;
      }
    }
  }

  /**
   * What minibuf_read_yn returns and shows: the answer is decided by the first
   * key that is 'y', 'n' or C-g; the prompt is shown once per key read, bare
   * the first time and after "Please answer y or n.  " every later time.
   */
  lemma ReadYnOutcome(fmt: string, keys: seq<Key>)
    requires EndsAfter(keys, YnSteps(fmt), 0)
    ensures var run := RetryLoop(keys, YnSteps(fmt));
            var last := keys[run.used - 1];
            && (run.result == 1 <==> last == Plain('y'))
            && (run.result == 0 <==> last == Plain('n'))
            && (run.result == -1 <==> last == Ctrl('g'))
            && (forall k :: 0 <= k < run.used - 1 ==>
                  keys[k] != Plain('y') && keys[k] != Plain('n') && keys[k] != Ctrl('g'))
  {
    var step := YnSteps(fmt);
    var run := RetryLoop(keys, step);
    assert step(run.used - 1, keys[run.used - 1]) == YnStep(fmt, run.used - 1, keys[run.used - 1]);
    forall k | 0 <= k < run.used - 1
      ensures keys[k] != Plain('y') && keys[k] != Plain('n') && keys[k] != Ctrl('g')
    {
      assert step(k, keys[k]) == YnStep(fmt, k, keys[k]);
    }
  }

  /** minibuf_read_yn shows the prompt once per key: bare the first time, after the complaint every later time. */
  lemma ReadYnPrompts(fmt: string, keys: seq<Key>)
    requires EndsAfter(keys, YnSteps(fmt), 0)
    ensures var run := RetryLoop(keys, YnSteps(fmt));
            && |run.effects| == run.used
            && run.effects[0] == Write(fmt)
            && (forall k :: 0 < k < run.used ==> run.effects[k] == Write(YN_ERR + fmt))
  {
    var step := YnSteps(fmt);
    var run := RetryLoop(keys, step);
    forall k | 0 <= k < run.used
      ensures step(k, keys[k]).effects == [Write((if k == 0 then "" else YN_ERR) + fmt)]
    {
      assert step(k, keys[k]) == YnStep(fmt, k, keys[k]);
    }
    EffectsOfSingleSteps(keys, step, run.used);
    assert "" + fmt == fmt;
  }

  // ---------------------------------------------------------------------
  // minibuf_vread_completion
  // ---------------------------------------------------------------------

  /** The arguments of one minibuf_vread_completion call. */
  datatype Request = Request(prompt: string, value: string, cp: seq<string>, hp: Option<HistoryId>,
                             emptyErr: string, invalidErr: string)

  /** The Lua completion engine: completion_try and minibuf_test_in_completions. */
  datatype Completer = Completer(tryComplete: (seq<string>, string) -> CompletionResult,
                                 inCompletions: (seq<string>, string) -> bool)

  /** The text that reaches the membership test: the match on COMPLETION_MATCHED, the typed text otherwise. */
  function Completed(c: Completer, cp: seq<string>, s: string): string
  {
    var res := c.tryComplete(cp, s);
    if res.Matched? then res.text else s
  }

  /** One round of minibuf_vread_completion's for(;;) loop. */
  function CompletionStep(req: Request, c: Completer, ms: Option<string>): Step<Option<string>>
  {
    var read := [Read(req.prompt, req.value, END_POS)];
    match ms
    case None => Step(Some(None), read + [KeyboardQuit])
    case Some(s) =>
      if s == "" then Step(Some(None), read + [Error(req.emptyErr, None)])
      else
        var text := Completed(c, req.cp, s);
        var shown := read + (if c.tryComplete(req.cp, s).NonUnique? then [PopupCompletion] else []);
        if c.inCompletions(req.cp, text) then
          Step(Some(Some(text)),
               shown + (if req.hp.Some? then [AddHistory(req.hp.value, text)] else []) + [Clear])
        else
          Step(None, shown + [Error(req.invalidErr, Some(text)), WaitKey])
  }

  /**
   * What one round of minibuf_vread_completion does: every round reads first;
   * a cancelled read quits and an empty one shows empty_err, both ending the
   * loop with NULL; otherwise the completed text is tested, and a text that
   * fails shows invalid_err and waits for a key before the next round, while
   * one that passes ends the loop and clears the minibuffer.
   */
  lemma CompletionStepMeaning(req: Request, c: Completer, ms: Option<string>)
    ensures var st := CompletionStep(req, c, ms);
            var last := st.effects[|st.effects| - 1];
            && |st.effects| >= 2 && st.effects[0] == Read(req.prompt, req.value, END_POS)
            && (ms.None? ==> st.outcome == Some(None) && last == KeyboardQuit)
            && (ms == Some("") ==> st.outcome == Some(None) && last == Error(req.emptyErr, None))
            && (st.outcome == Some(None) <==> ms.None? || ms == Some(""))
            && (st.outcome.None? <==>
                  ms.Some? && ms.value != "" && !c.inCompletions(req.cp, Completed(c, req.cp, ms.value)))
            && (st.outcome.None? ==>
                  ms.Some? && st.effects[|st.effects| - 2..] == [Error(req.invalidErr, Some(Completed(c, req.cp, ms.value))), WaitKey])
            && (st.outcome.Some? && st.outcome.value.Some? ==>
                  && ms.Some? && ms.value != ""
                  && st.outcome.value.value == Completed(c, req.cp, ms.value)
                  && c.inCompletions(req.cp, st.outcome.value.value)
                  && last == Clear)
  {
  }

  function CompletionSteps(req: Request, c: Completer): (nat, Option<string>) -> Step<Option<string>>
  {
    (k: nat, ms: Option<string>) => CompletionStep(req, c, ms)
  }

  /**
   * One round of minibuf_vread_completion's loop after the read: done says
   * whether the loop breaks, ms is what it would return.
   */
  method CompletionRound(req: Request, c: Completer, typed: Option<string>)
    returns (done: bool, ms: Option<string>, round: seq<Effect>)
    ensures CompletionStep(req, c, typed) == Step(if done then Some(ms) else None, round)
  {
    ms := typed;
    round := [Read(req.prompt, req.value, END_POS)];
    done := true;
    if ms == None {
      round := round + [KeyboardQuit];
    } else if |ms.value| == 0 {
      round := round + [Error(req.emptyErr, None)];
      ms := None;
    } else {
      var comp := c.tryComplete(req.cp, ms.value);
      if comp.Matched? {
        ms := Some(comp.text);
      } else if comp.NonUnique? {
        round := round + [PopupCompletion];
      }
      var b := c.inCompletions(req.cp, ms.value);
      if b {
        if req.hp.Some? {
          round := round + [AddHistory(req.hp.value, ms.value)];
        }
        round := round + [Clear];
      } else {
        round := round + [Error(req.invalidErr, Some(ms.value)), WaitKey];
        done := false;
      }
    }
  }

  /** minibuf_vread_completion. */
  method VreadCompletion(req: Request, c: Completer, inputs: seq<Option<string>>)
    returns (ms: Option<string>, effects: seq<Effect>)
    requires EndsAfter(inputs, CompletionSteps(req, c), 0)
    ensures var run := RetryLoop(inputs, CompletionSteps(req, c));
            ms == run.result && effects == run.effects
  {
    ghost var step := CompletionSteps(req, c);
    var i := 0;
    effects := [];
    while true
      invariant i <= |inputs|
      invariant forall k :: 0 <= k < i ==> step(k, inputs[k]).outcome.None?
      invariant effects == Effects(inputs, step, i)
      invariant EndsAfter(inputs, step, i)
      decreases |inputs| - i
    {
      ghost var typed := inputs[i];
      var done, round;
      done, ms, round := CompletionRound(req, c, inputs[i]);
      assert step(i, typed) == CompletionStep(req, c, typed);
      effects := effects + round;
      i := i + 1;
      if done {
        RetryLoopStopsAt(inputs, step, i - 1);
        break;
      }
    }
  }

  /**
   * How a minibuf_vread_completion loop ends.  A cancelled read quits and
   * returns None; an empty submission shows empty_err and returns None at
   * once; any other result passed the membership test, after being replaced
   * by the match on COMPLETION_MATCHED.  Every rejected input was a non-empty
   * text that failed the test, and every round re-offers the original value.
   */
  lemma VreadOutcome(req: Request, c: Completer, inputs: seq<Option<string>>)
    requires EndsAfter(inputs, CompletionSteps(req, c), 0)
    ensures var run := RetryLoop(inputs, CompletionSteps(req, c));
            var last := inputs[run.used - 1];
            && (last == None ==> run.result == None && run.effects[|run.effects| - 1] == KeyboardQuit)
            && (last == Some("") ==>
                  run.result == None && run.effects[|run.effects| - 1] == Error(req.emptyErr, None))
            && (run.result.Some? <==> last.Some? && last.value != "")
            && (run.result.Some? ==>
                  run.result.value == Completed(c, req.cp, last.value) && c.inCompletions(req.cp, run.result.value))
            && (forall k :: 0 <= k < run.used - 1 ==>
                  inputs[k].Some? && inputs[k].value != ""
                  && !c.inCompletions(req.cp, Completed(c, req.cp, inputs[k].value)))
  {
    var step := CompletionSteps(req, c);
    var run := RetryLoop(inputs, step);
    forall k | 0 <= k < |inputs|
      ensures step(k, inputs[k]) == CompletionStep(req, c, inputs[k])
    {
    }
  }

  /** A NONUNIQUE completion pops up the list and still goes on to the membership test with the text unchanged. */
  lemma NonUniqueStillTested(req: Request, c: Completer, s: string)
    requires s != "" && c.tryComplete(req.cp, s).NonUnique?
    ensures var st := CompletionStep(req, c, Some(s));
            && PopupCompletion in st.effects
            && (st.outcome.Some? <==> c.inCompletions(req.cp, s))
            && (st.outcome.Some? ==> st.outcome.value == Some(s))
  {
  }

  /** Every round of a vread loop reads with the same prompt and the caller's original value. */
  lemma {:induction false} VreadRereadsValue(req: Request, c: Completer, inputs: seq<Option<string>>, n: nat)
    requires n <= |inputs|
    ensures forall e :: e in Effects(inputs, CompletionSteps(req, c), n) && e.Read? ==>
              e == Read(req.prompt, req.value, END_POS)
  {
    if n > 0 {
      VreadRereadsValue(req, c, inputs, n - 1);
      assert CompletionSteps(req, c)(n - 1, inputs[n - 1]) == CompletionStep(req, c, inputs[n - 1]);
    }
  }

  /** Rejected rounds never touch the history. */
  lemma {:induction false} RejectionsAddNoHistory(req: Request, c: Completer, inputs: seq<Option<string>>, n: nat)
    requires n <= |inputs|
    requires forall k :: 0 <= k < n ==> CompletionSteps(req, c)(k, inputs[k]).outcome.None?
    ensures HistoryAppends(Effects(inputs, CompletionSteps(req, c), n)) == 0
  {
    var step := CompletionSteps(req, c);
    if n > 0 {
      RejectionsAddNoHistory(req, c, inputs, n - 1);
      var s := step(n - 1, inputs[n - 1]);
      assert s == CompletionStep(req, c, inputs[n - 1]);
      HistoryAppendsZero(s.effects);
      HistoryAppendsConcat(Effects(inputs, step, n - 1), s.effects);
    }
  }

  /** Effects without an append, then at most one append, then the clearing of the minibuffer. */
  lemma {:induction false} AppendThenClear(shown: seq<Effect>, hist: seq<Effect>)
    requires forall e :: e in shown ==> !e.AddHistory?
    requires hist == [] || (|hist| == 1 && hist[0].AddHistory?)
    ensures HistoryAppends(shown + hist + [Clear]) == |hist|
  {
    HistoryAppendsZero(shown);
    HistoryAppendsZero([Clear]);
    HistoryAppendsConcat(shown, hist);
    HistoryAppendsConcat(shown + hist, [Clear]);
    if hist != [] {
      assert hist[..0] == [];
    }
  }

  /** One round appends to the history exactly when it accepts a text and a history was given. */
  lemma CompletionStepHistory(req: Request, c: Completer, ms: Option<string>)
    ensures var st := CompletionStep(req, c, ms);
            && HistoryAppends(st.effects) == (if st.outcome.Some? && st.outcome.value.Some? && req.hp.Some? then 1 else 0)
            && (st.outcome.Some? && st.outcome.value.Some? && req.hp.Some? ==>
                  AddHistory(req.hp.value, st.outcome.value.value) in st.effects)
  {
    var st := CompletionStep(req, c, ms);
    var read := [Read(req.prompt, req.value, END_POS)];
    if ms.None? {
      assert st.effects == read + [KeyboardQuit];
      HistoryAppendsZero(st.effects);
    } else if ms.value == "" {
      assert st.effects == read + [Error(req.emptyErr, None)];
      HistoryAppendsZero(st.effects);
    } else {
      var s := ms.value;
      var text := Completed(c, req.cp, s);
      var shown := read + (if c.tryComplete(req.cp, s).NonUnique? then [PopupCompletion] else []);
      if c.inCompletions(req.cp, text) {
        var hist := if req.hp.Some? then [AddHistory(req.hp.value, text)] else [];
        assert st.effects == shown + hist + [Clear];
        AppendThenClear(shown, hist);
        if req.hp.Some? {
          assert st.effects[|shown|] == AddHistory(req.hp.value, text);
        }
      } else {
        assert st.effects == shown + [Error(req.invalidErr, Some(text)), WaitKey];
        HistoryAppendsZero(st.effects);
      }
    }
  }

  /**
   * The history gets exactly one entry, the returned text, when the loop
   * returns a text and a history was given; otherwise none.
   */
  lemma VreadHistory(req: Request, c: Completer, inputs: seq<Option<string>>)
    requires EndsAfter(inputs, CompletionSteps(req, c), 0)
    ensures var run := RetryLoop(inputs, CompletionSteps(req, c));
            && HistoryAppends(run.effects) == (if run.result.Some? && req.hp.Some? then 1 else 0)
            && (run.result.Some? && req.hp.Some? ==> AddHistory(req.hp.value, run.result.value) in run.effects)
  {
    var step := CompletionSteps(req, c);
    var run := RetryLoop(inputs, step);
    var n := run.used - 1;
    var last := step(n, inputs[n]);
    assert last == CompletionStep(req, c, inputs[n]);
    CompletionStepHistory(req, c, inputs[n]);
    RejectionsAddNoHistory(req, c, inputs, n);
    assert run.effects == Effects(inputs, step, n) + last.effects;
    HistoryAppendsConcat(Effects(inputs, step, n), last.effects);
  }

  // ---------------------------------------------------------------------
  // minibuf_read_yesno
  // ---------------------------------------------------------------------

  /** The request minibuf_read_yesno makes: completions {no, yes}, no history, one complaint for both errors. */
  function YesNoRequest(fmt: string): Request
  {
    Request(fmt, "", ["no", "yes"], None, YESNO_ERR, YESNO_ERR)
  }

  /** minibuf_read_yesno: 1 when the accepted answer is "yes", 0 for any other accepted answer, -1 on NULL. */
  method ReadYesNo(fmt: string, c: Completer, inputs: seq<Option<string>>)
    returns (ret: int, effects: seq<Effect>)
    requires EndsAfter(inputs, CompletionSteps(YesNoRequest(fmt), c), 0)
    ensures var run := RetryLoop(inputs, CompletionSteps(YesNoRequest(fmt), c));
            && effects == run.effects
            && (ret == 1 <==> run.result == Some("yes"))
            && (ret == 0 <==> run.result.Some? && run.result.value != "yes")
            && (ret == -1 <==> run.result.None?)
  {
    var ms;
    ms, effects := VreadCompletion(YesNoRequest(fmt), c, inputs);
    ret := -1;
    if ms != None {
      ret := if ms.value == "yes" then 1 else 0;
    }
  }

  // ---------------------------------------------------------------------
  // minibuf_read_filename
  // ---------------------------------------------------------------------

  /** The cursor offset: the length of the path less that of the file name, in size_t arithmetic. */
  function CursorPos(pathLen: nat, file: Option<string>): (pos: nat)
    ensures file.Some? ==> pos <= SIZE_MAX
    ensures file.Some? && |file.value| <= pathLen <= SIZE_MAX ==> pos + |file.value| == pathLen
    ensures file.Some? && pathLen < |file.value| <= SIZE_MAX ==> pos == SIZE_MAX + 1 + pathLen - |file.value|
    ensures file.None? ==> pos == pathLen
  {
    if file.None? then pathLen
    else (pathLen - |file.value|) % (SIZE_MAX + 1)
  }

  /**
   * minibuf_read_filename.  expand_path and compact_path are oracles
   * (None = expansion failed); the one read is `input`.
   */
  method ReadFilename(fmt: string, value: string, file: Option<string>, input: Option<string>,
                      expandPath: string -> Option<string>, compactPath: string -> string)
    returns (p: Option<string>, effects: seq<Effect>)
    ensures expandPath(value).None? ==> p == None && effects == []
    ensures expandPath(value).Some? ==>
              var path := compactPath(expandPath(value).value);
              && |effects| >= 1
              && effects[0] == Read(fmt, path, CursorPos(|path|, file))
    ensures p.Some? <==> expandPath(value).Some? && input.Some? && expandPath(input.value).Some?
    ensures p.Some? ==> p == expandPath(input.value)
    ensures (exists e :: e in effects && e.AddHistory?) <==> p.Some?
    ensures p.Some? ==> AddHistory(FilesHistory, input.value) in effects
    // One read, then one files-history append when a path is returned, and nothing else.
    ensures expandPath(value).Some? ==>
              var path := compactPath(expandPath(value).value);
              effects == [Read(fmt, path, CursorPos(|path|, file))]
                         + (if p.Some? then [AddHistory(FilesHistory, input.value)] else [])
  {
    p := None;
    effects := [];
    var start := expandPath(value);
    if start.Some? {
      var path := compactPath(start.value);
      var pos := CursorPos(|path|, file);
      effects := [Read(fmt, path, pos)];
      if input.Some? {
        var entered := expandPath(input.value);
        if entered.Some? {
          effects := effects + [AddHistory(FilesHistory, input.value)];
          p := entered;
        }
      }
    }
    assert p.Some? ==> effects[1] == AddHistory(FilesHistory, input.value);
  }
}
