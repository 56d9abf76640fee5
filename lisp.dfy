/**
 * The command registry and dispatcher of GNU Zile (src/lisp.c).
 *
 * fentry_table is a sequence of entries given as a parameter (its rows come
 * from tbl_funcs.h, which is not part of this model).  A built-in's C
 * function is identified by a FuncId; calling one is an oracle.  The macro
 * store is the sequence of macro names, searched front to back.
 */
module Lisp {
  import opened Wrappers
  import Minibuf

  /** The identity of a built-in's C function (a function pointer, compared with ==). */
  type FuncId = nat

  /** One row of fentry_table. */
  datatype FEntry = FEntry(name: string, func: FuncId, interactive: bool, doc: string)

  /** A Lisp value as the dispatcher handles it: leNIL, leT, or a value carrying its data string. */
  datatype Le = Nil | T | Value(data: string)

  function BoolToLisp(b: bool): Le
  {
    if b then T else Nil
  }

  // ---------------------------------------------------------------------
  // Table lookups
  // ---------------------------------------------------------------------

  /** The first index at or after i whose entry is named `name` (the search loop of get_fentry). */
  function FindByName(table: seq<FEntry>, name: string, i: nat): (r: Option<nat>)
    requires i <= |table|
    ensures r.Some? ==> i <= r.value < |table| && table[r.value].name == name
                        && forall j :: i <= j < r.value ==> table[j].name != name
    ensures r.None? ==> forall j :: i <= j < |table| ==> table[j].name != name
    decreases |table| - i
  {
    if i == |table| then None
    else if table[i].name == name then Some(i)
    else FindByName(table, name, i + 1)
  }

  /** get_fentry: the first entry whose name equals `name` exactly, or None. */
  function GetFentry(table: seq<FEntry>, name: string): (r: Option<nat>)
    ensures r.Some? ==> r.value < |table| && table[r.value].name == name
                        && forall j :: 0 <= j < r.value ==> table[j].name != name
    ensures r.None? <==> forall j :: 0 <= j < |table| ==> table[j].name != name
  {
    FindByName(table, name, 0)
  }

  /** get_function: the function of the first entry named `name`, or None for an unknown name. */
  function GetFunction(table: seq<FEntry>, name: string): (r: Option<FuncId>)
    ensures r.None? <==> forall j :: 0 <= j < |table| ==> table[j].name != name
    ensures r.Some? ==> exists j :: 0 <= j < |table| && table[j].name == name && table[j].func == r.value
                                    && forall k :: 0 <= k < j ==> table[k].name != name
  {
    match GetFentry(table, name)
    case None => None
    case Some(i) => Some(table[i].func)
  }

  /** get_function_doc: the documentation of the first entry named `name`, or None. */
  function GetFunctionDoc(table: seq<FEntry>, name: string): (r: Option<string>)
    ensures r.None? <==> forall j :: 0 <= j < |table| ==> table[j].name != name
    ensures r.Some? ==> exists j :: 0 <= j < |table| && table[j].name == name && table[j].doc == r.value
                                    && forall k :: 0 <= k < j ==> table[k].name != name
  {
    match GetFentry(table, name)
    case None => None
    case Some(i) => Some(table[i].doc)
  }

  /** The first index at or after i whose entry holds `f` (the search loop of get_function_name). */
  function FindByFunc(table: seq<FEntry>, f: FuncId, i: nat): (r: Option<nat>)
    requires i <= |table|
    ensures r.Some? ==> i <= r.value < |table| && table[r.value].func == f
                        && forall j :: i <= j < r.value ==> table[j].func != f
    ensures r.None? ==> forall j :: i <= j < |table| ==> table[j].func != f
    decreases |table| - i
  {
    if i == |table| then None
    else if table[i].func == f then Some(i)
    else FindByFunc(table, f, i + 1)
  }

  /** get_function_name: the name of the first entry holding `f`, or None. */
  function GetFunctionName(table: seq<FEntry>, f: FuncId): (r: Option<string>)
    ensures r.None? <==> forall j :: 0 <= j < |table| ==> table[j].func != f
    ensures r.Some? ==> exists j :: 0 <= j < |table| && table[j].func == f && table[j].name == r.value
                                    && forall k :: 0 <= k < j ==> table[k].func != f
  {
    match FindByFunc(table, f, 0)
    case None => None
    case Some(i) => Some(table[i].name)
  }

  /** Names are unique keys of the table. */
  ghost predicate UniqueNames(table: seq<FEntry>)
  {
    forall i, j :: 0 <= i < j < |table| ==> table[i].name != table[j].name
  }

  /** `f` is held by exactly one entry. */
  ghost predicate OccursOnce(table: seq<FEntry>, f: FuncId)
  {
    forall i, j :: 0 <= i < |table| && 0 <= j < |table| && table[i].func == f && table[j].func == f ==> i == j
  }

  /** Looking up a registered name gives back the function registered under it. */
  lemma RegistryRoundTrip(table: seq<FEntry>, j: nat)
    requires UniqueNames(table) && j < |table|
    ensures GetFunction(table, table[j].name) == Some(table[j].func)
    ensures GetFunctionDoc(table, table[j].name) == Some(table[j].doc)
  {
  }

  /** Naming a function, then looking the name up, gives back the function. */
  lemma NameThenFunction(table: seq<FEntry>, f: FuncId, j: nat)
    requires UniqueNames(table) && j < |table| && table[j].func == f
    ensures GetFunctionName(table, f).Some?
    ensures GetFunction(table, GetFunctionName(table, f).value) == Some(f)
  {
    var i := FindByFunc(table, f, 0).value;
    RegistryRoundTrip(table, i);
  }

  /** For a function held by one entry only, get_function_name inverts get_function. */
  lemma FunctionThenName(table: seq<FEntry>, name: string)
    requires GetFunction(table, name).Some?
    requires OccursOnce(table, GetFunction(table, name).value)
    ensures GetFunctionName(table, GetFunction(table, name).value) == Some(name)
  {
    var i := GetFentry(table, name).value;
    var k := FindByFunc(table, table[i].func, 0).value;
    assert k == i;
  }

  // ---------------------------------------------------------------------
  // execute_with_uniarg
  // ---------------------------------------------------------------------

  datatype Direction = Forward | Backward

  /** What execute_with_uniarg does, in order: undo markers and calls of the chosen function. */
  datatype UniargEvent = UndoStartSequence | UndoEndSequence | Call(dir: Direction)

  /** n calls in direction dir. */
  function Calls(dir: Direction, n: nat): seq<UniargEvent>
  {
    if n == 0 then [] else Calls(dir, n - 1) + [Call(dir)]
  }

  /** The body wrapped in an undo sequence when `undo` is set. */
  function Bracket(undo: bool, body: seq<UniargEvent>): seq<UniargEvent>
  {
    (if undo then [UndoStartSequence] else []) + body + (if undo then [UndoEndSequence] else [])
  }

  /**
   * The loop `for (uni = k; ret && uni < count; ++uni) ret = func ()`, where
   * act(i) is what the i-th call returns: how many calls it makes from the
   * k-th on, and the final ret.
   */
  function Repeat(act: nat -> bool, count: int, k: nat): (r: (nat, bool))
    ensures count <= k ==> r == (0, true)
    ensures count > k ==> 1 <= r.0 <= count - k
    decreases count - k
  {
    if count <= k then (0, true)
    else if act(k) then
      var rest := Repeat(act, count, k + 1);
      (rest.0 + 1, rest.1)
    else (1, false)
  }

  /**
   * What the loop promises: ret stays t exactly when every call made returned
   * true, in which case all count - k calls were made; otherwise the loop
   * stopped right after the first call that returned false.
   */
  lemma {:induction false} RepeatMeaning(act: nat -> bool, count: int, k: nat)
    ensures var r := Repeat(act, count, k);
            && (r.1 <==> forall i :: k <= i < k + r.0 ==> act(i))
            && (r.1 && count > k ==> k + r.0 == count)
            && (!r.1 ==> r.0 >= 1 && !act(k + r.0 - 1) && forall i :: k <= i < k + r.0 - 1 ==> act(i))
    decreases count - k
  {
    if count > k && act(k) {
      RepeatMeaning(act, count, k + 1);
    }
  }

  /** The function execute_with_uniarg picks: backward exactly when there is one and uniarg < 0. */
  function ChosenDirection(hasBackward: bool, uniarg: int): (dir: Direction)
    ensures dir == Backward <==> hasBackward && uniarg < 0
  {
    if hasBackward && uniarg < 0 then Backward else Forward
  }

  /** The count execute_with_uniarg uses: negated exactly when backward is picked. */
  function ChosenCount(hasBackward: bool, uniarg: int): (count: int)
    ensures ChosenDirection(hasBackward, uniarg) == Backward ==> count == -uniarg > 0
    ensures ChosenDirection(hasBackward, uniarg) == Forward ==> count == uniarg
  {
    if hasBackward && uniarg < 0 then -uniarg else uniarg
  }

  /** The calling loop of execute_with_uniarg on its own: how many calls it makes and the final ret. */
  method RepeatLoop(act: nat -> bool, count: int, dir: Direction) returns (n: nat, ok: bool, calls: seq<UniargEvent>)
    ensures (n, ok) == Repeat(act, count, 0)
    ensures calls == Calls(dir, n)
  {
    n, ok, calls := 0, true, [];
    while ok && n < count
      invariant n == 0 || n <= count
      invariant calls == Calls(dir, n)
      invariant ok ==> Repeat(act, count, 0) == (n + Repeat(act, count, n).0, Repeat(act, count, n).1)
      invariant !ok ==> Repeat(act, count, 0) == (n, false)
      decreases count - n
    {
      RepeatStep(act, count, n);
      ok := act(n);
      n := n + 1;
      calls := calls + [Call(dir)];
    }
  }

  /**
   * execute_with_uniarg.  forward(i) and backward(i) are what the i-th call
   * of the respective function returns; hasBackward says the pointer is
   * not NULL.
   */
  method ExecuteWithUniarg(undo: bool, uniarg: int, hasBackward: bool, forward: nat -> bool, backward: nat -> bool)
    returns (ret: Le, events: seq<UniargEvent>)
    ensures var dir := ChosenDirection(hasBackward, uniarg);
            var run := Repeat(if dir == Backward then backward else forward, ChosenCount(hasBackward, uniarg), 0);
            && ret == BoolToLisp(run.1)
            && events == Bracket(undo, Calls(dir, run.0))
  {
    var func := forward;
    var dir := Forward;
    var count := uniarg;
    if hasBackward && uniarg < 0 {
      func := backward;
      dir := Backward;
      count := -uniarg;
    }
    events := [];
    if undo {
      events := events + [UndoStartSequence];
    }
    var n, ok, calls := RepeatLoop(func, count, dir);
    events := events + calls;
    if undo {
      events := events + [UndoEndSequence];
    }
    ret := BoolToLisp(ok);
  }

  /** One round of the loop behind Repeat. */
  lemma RepeatStep(act: nat -> bool, count: int, k: nat)
    requires k < count
    ensures Repeat(act, count, k) == if act(k) then (Repeat(act, count, k + 1).0 + 1, Repeat(act, count, k + 1).1) else (1, false)
  {
  }

  /**
   * The undo bracket: with `undo`, exactly one start marker first and one end
   * marker last, around the calls, however early the loop stopped; without
   * it, no marker at all.
   */
  lemma UndoBracket(undo: bool, dir: Direction, n: nat)
    ensures var events := Bracket(undo, Calls(dir, n));
            && multiset(events)[UndoStartSequence] == (if undo then 1 else 0)
            && multiset(events)[UndoEndSequence] == (if undo then 1 else 0)
            && (undo ==> events[0] == UndoStartSequence && events[|events| - 1] == UndoEndSequence)
            && multiset(events)[Call(dir)] == n
  {
    CallsMultiset(dir, n);
    var body := Calls(dir, n);
    var pre: seq<UniargEvent> := if undo then [UndoStartSequence] else [];
    var post: seq<UniargEvent> := if undo then [UndoEndSequence] else [];
    assert multiset(Bracket(undo, body)) == multiset(pre) + multiset(body) + multiset(post);
  }

  lemma {:induction false} CallsMultiset(dir: Direction, n: nat)
    ensures multiset(Calls(dir, n))[Call(dir)] == n
    ensures multiset(Calls(dir, n))[UndoStartSequence] == 0
    ensures multiset(Calls(dir, n))[UndoEndSequence] == 0
  {
    if n > 0 {
      CallsMultiset(dir, n - 1);
      assert multiset(Calls(dir, n)) == multiset(Calls(dir, n - 1)) + multiset{Call(dir)};
    }
  }

  /** A call that fails stops the loop: five forward steps whose third fails make three calls and give nil. */
  lemma ThirdFailureStopsFiveSteps()
    ensures Repeat(i => i != 2, 5, 0) == (3, false)
  {
    var act := (i: nat) => i != 2;
    assert Repeat(act, 5, 2) == (1, false);
    assert Repeat(act, 5, 1) == (2, false);
  }

  // ---------------------------------------------------------------------
  // execute_function
  // ---------------------------------------------------------------------

  /** How execute_function handled a name. */
  datatype Dispatch = Builtin(func: FuncId) | MacroPlayed(index: nat) | NoSuchCommand

  /** get_macro (macro.c is not part of this model): the first macro with that name. */
  function GetMacro(macros: seq<string>, name: string): (r: Option<nat>)
    ensures r.Some? ==> r.value < |macros| && macros[r.value] == name
    ensures r.Some? ==> forall k :: 0 <= k < r.value ==> macros[k] != name
    ensures r.None? <==> name !in macros
    decreases |macros|
  {
    if macros == [] then None
    else if macros[0] == name then Some(0)
    else match GetMacro(macros[1..], name)
      case None => None
      case Some(i) => Some(i + 1)
  }

  /**
   * execute_function: a built-in of that name is called with uniarg (call is
   * what it returns); failing that, a macro of that name is played and the
   * result is t; failing that, nothing runs and the result is nil.  A
   * built-in shadows a macro of the same name.
   */
  function ExecuteFunction(table: seq<FEntry>, macros: seq<string>, name: string, uniarg: int,
                           call: (FuncId, int) -> Le): (r: (Le, Dispatch))
    ensures r.1.Builtin? <==> exists j :: 0 <= j < |table| && table[j].name == name
    ensures r.1.Builtin? ==> GetFunction(table, name) == Some(r.1.func) && r.0 == call(r.1.func, uniarg)
    ensures r.1.MacroPlayed? <==> GetFunction(table, name).None? && name in macros
    ensures r.1.MacroPlayed? ==> r.1.index < |macros| && macros[r.1.index] == name && r.0 == T
    ensures r.1.MacroPlayed? ==> GetMacro(macros, name) == Some(r.1.index)
    ensures r.1.NoSuchCommand? ==> r.0 == Nil
  {
    match GetFunction(table, name)
    case Some(f) => (call(f, uniarg), Builtin(f))
    case None =>
      match GetMacro(macros, name)
      case Some(m) => (T, MacroPlayed(m))
      case None => (Nil, NoSuchCommand)
  }

  // ---------------------------------------------------------------------
  // execute-extended-command and minibuf_read_function_name
  // ---------------------------------------------------------------------

  function DigitChar(d: nat): (c: char)
    requires d < 10
    ensures '0' <= c <= '9' && (c as int) - ('0' as int) == d
  {
    (('0' as int) + d) as char
  }

  /** All characters are decimal digits. */
  predicate IsDigits(s: string)
  {
    forall i :: 0 <= i < |s| ==> '0' <= s[i] <= '9'
  }

  /** The value of a string read as decimal digits. */
  function DecimalValue(s: string): int
  {
    if s == [] then 0
    else DecimalValue(s[..|s| - 1]) * 10 + ((s[|s| - 1] as int) - ('0' as int))
  }

  /** The value of a string as %d writes it: an optional minus sign, then digits. */
  function IntValue(s: string): int
  {
    if |s| > 0 && s[0] == '-' then -DecimalValue(s[1..]) else DecimalValue(s)
  }

  /** The decimal digits of n, as printf's %d writes them. */
  function DecimalDigits(n: nat): (s: string)
    ensures |s| >= 1 && IsDigits(s)
    ensures DecimalValue(s) == n
    ensures |s| > 1 ==> s[0] != '0'
  {
    if n < 10 then [DigitChar(n)]
    else
      var s := DecimalDigits(n / 10) + [DigitChar(n % 10)];
      assert s[..|s| - 1] == DecimalDigits(n / 10);
      s
  }

  /** %d: a minus sign for negative numbers, then the digits; reading it back gives n. */
  function FormatInt(n: int): (s: string)
    ensures IntValue(s) == n
    ensures |s| >= 1 && (s[0] == '-' <==> n < 0)
    // After the sign come the digits of |n|, with no leading zero.
    ensures var digits := if n < 0 then s[1..] else s;
            && |digits| >= 1 && IsDigits(digits)
            && DecimalValue(digits) == (if n < 0 then -n else n)
            && (|digits| > 1 ==> digits[0] != '0')
  {
    if n < 0 then
      var s := "-" + DecimalDigits(-n);
      assert s[1..] == DecimalDigits(-n);
      s
    else DecimalDigits(n)
  }

  /** The prompt of execute-extended-command. */
  function ExtendedCommandPrompt(setUniarg: bool, uniargEmpty: bool, uniarg: int): (p: string)
    ensures !setUniarg ==> p == "M-x "
    ensures setUniarg && uniargEmpty ==> p == "C-u M-x "
    ensures setUniarg && !uniargEmpty ==> p == FormatInt(uniarg) + " M-x "
  {
    var prefix := if setUniarg then (if uniargEmpty then "C-u " else FormatInt(uniarg) + " ") else "";
    prefix + "M-x "
  }

  /** The names of the interactive entries, in table order. */
  function InteractiveNames(table: seq<FEntry>): seq<string>
  {
    if table == [] then []
    else InteractiveNames(table[..|table| - 1])
         + (if table[|table| - 1].interactive then [table[|table| - 1].name] else [])
  }

  /** A name is offered exactly when some interactive entry carries it. */
  lemma {:induction false} InteractiveNamesMembers(table: seq<FEntry>, s: string)
    ensures s in InteractiveNames(table) <==> exists j :: 0 <= j < |table| && table[j].interactive && table[j].name == s
  {
    if table != [] {
      var init := table[..|table| - 1];
      InteractiveNamesMembers(init, s);
      if exists j :: 0 <= j < |init| && init[j].interactive && init[j].name == s {
        var j :| 0 <= j < |init| && init[j].interactive && init[j].name == s;
        assert table[j] == init[j];
      }
      if exists j :: 0 <= j < |table| && table[j].interactive && table[j].name == s {
        var j :| 0 <= j < |table| && table[j].interactive && table[j].name == s;
        if j < |init| {
          assert init[j] == table[j];
        }
      }
    }
  }

  /** The candidate list of minibuf_read_function_name: the interactive entries, then the macro names. */
  method FunctionNameCandidates(table: seq<FEntry>, macros: seq<string>) returns (cands: seq<string>)
    ensures cands == InteractiveNames(table) + macros
    ensures multiset(cands) == multiset(InteractiveNames(table)) + multiset(macros)
  {
    cands := [];
    for i := 0 to |table|
      invariant cands == InteractiveNames(table[..i])
    {
      assert table[..i + 1][..i] == table[..i];
      if table[i].interactive {
        cands := cands + [table[i].name];
      }
    }
    assert table[..|table|] == table;
    cands := cands + macros;
  }

  /** The Request minibuf_read_function_name makes. */
  function FunctionNameRequest(table: seq<FEntry>, macros: seq<string>, prompt: string): Minibuf.Request
  {
    Minibuf.Request(prompt, "", InteractiveNames(table) + macros, Some(Minibuf.FunctionsHistory),
                    "No function name given", "Undefined function name `%s'")
  }

  /** minibuf_read_function_name. */
  method MinibufReadFunctionName(table: seq<FEntry>, macros: seq<string>, prompt: string,
                                 c: Minibuf.Completer, inputs: seq<Option<string>>)
    returns (name: Option<string>, effects: seq<Minibuf.Effect>)
    requires Minibuf.EndsAfter(inputs, Minibuf.CompletionSteps(FunctionNameRequest(table, macros, prompt), c), 0)
    ensures var run := Minibuf.RetryLoop(inputs, Minibuf.CompletionSteps(FunctionNameRequest(table, macros, prompt), c));
            name == run.result && effects == run.effects
  {
    var cands := FunctionNameCandidates(table, macros);
    var req := Minibuf.Request(prompt, "", cands, Some(Minibuf.FunctionsHistory),
                               "No function name given", "Undefined function name `%s'");
    name, effects := Minibuf.VreadCompletion(req, c, inputs);
  }

  /**
   * When the membership test is exact membership in the candidate list, the
   * name read is an interactive built-in or a macro.
   */
  lemma FunctionNameIsCandidate(table: seq<FEntry>, macros: seq<string>, prompt: string,
                                c: Minibuf.Completer, inputs: seq<Option<string>>)
    requires forall cp: seq<string>, s: string :: c.inCompletions(cp, s) == (s in cp)
    requires Minibuf.EndsAfter(inputs, Minibuf.CompletionSteps(FunctionNameRequest(table, macros, prompt), c), 0)
    ensures var run := Minibuf.RetryLoop(inputs, Minibuf.CompletionSteps(FunctionNameRequest(table, macros, prompt), c));
            run.result.Some? ==>
              (exists j :: 0 <= j < |table| && table[j].interactive && table[j].name == run.result.value)
              || run.result.value in macros
  {
    var req := FunctionNameRequest(table, macros, prompt);
    var run := Minibuf.RetryLoop(inputs, Minibuf.CompletionSteps(req, c));
    Minibuf.VreadOutcome(req, c, inputs);
    if run.result.Some? {
      var s := run.result.value;
      assert s in InteractiveNames(table) + macros;
      InteractiveNamesMembers(table, s);
    }
  }

  /** The read execute-extended-command makes. */
  function ExtendedCommandRequest(table: seq<FEntry>, macros: seq<string>, setUniarg: bool, uniargEmpty: bool,
                                  uniarg: int): Minibuf.Request
  {
    FunctionNameRequest(table, macros, ExtendedCommandPrompt(setUniarg, uniargEmpty, uniarg))
  }

  /**
   * execute-extended-command: build the prompt, read a function name, run it.
   * A cancelled or empty read gives nil without running anything.
   */
  method ExecuteExtendedCommand(table: seq<FEntry>, macros: seq<string>, setUniarg: bool, uniargEmpty: bool,
                                uniarg: int, c: Minibuf.Completer, inputs: seq<Option<string>>,
                                call: (FuncId, int) -> Le)
    returns (ok: Le, dispatch: Option<Dispatch>, effects: seq<Minibuf.Effect>)
    requires Minibuf.EndsAfter(inputs, Minibuf.CompletionSteps(ExtendedCommandRequest(table, macros, setUniarg, uniargEmpty, uniarg), c), 0)
    ensures var run := Minibuf.RetryLoop(inputs, Minibuf.CompletionSteps(ExtendedCommandRequest(table, macros, setUniarg, uniargEmpty, uniarg), c));
            && effects == run.effects
            && (run.result.None? ==> ok == Nil && dispatch == None)
            && (run.result.Some? ==>
                  var r := ExecuteFunction(table, macros, run.result.value, uniarg, call);
                  ok == r.0 && dispatch == Some(r.1))
  {
    var prompt := ExtendedCommandPrompt(setUniarg, uniargEmpty, uniarg);
    var name;
    name, effects := MinibufReadFunctionName(table, macros, prompt, c, inputs);
    if name == None {
      return Nil, None, effects;
    }
    var r := ExecuteFunction(table, macros, name.value, uniarg, call);
    ok, dispatch := r.0, Some(r.1);
  }

  // ---------------------------------------------------------------------
  // countNodes and setq
  // ---------------------------------------------------------------------

  /** A cell of a Lisp argument list, by its data string. */
  datatype Node = Node(data: string)

  /** countNodes: the length of the list. */
  method CountNodes(branch: seq<Node>) returns (count: nat)
    ensures count == |branch|
  {
    count := 0;
    var rest := branch;
    while rest != []
      invariant count + |rest| == |branch|
    {
      rest := rest[1..];
      count := count + 1;
    }
  }

  /** The k-th assignment setq makes: symbol arglist[2k+1], set to the value of the list from arglist[2k+2] on. */
  function SetqPair(arglist: seq<Node>, eval: seq<Node> -> string, k: nat): (string, string)
    requires 2 * k + 1 < |arglist|
  {
    (arglist[2 * k + 1].data, eval(arglist[2 * k + 2..]))
  }

  /**
   * setq.  arglist[0] is the head of the call; arglist[1], arglist[3], ...
   * are the symbols.  eval(l) is the data of what evaluateNode returns for
   * the list cell that starts l ([] for a missing value).  The result lists
   * the set_variable calls made, in order.
   */
  method Setq(arglist: seq<Node>, eval: seq<Node> -> string) returns (ok: Le, assignments: seq<(string, string)>)
    ensures |arglist| < 2 ==> ok == Nil && assignments == []
    ensures |arglist| >= 2 ==> |assignments| == |arglist| / 2 && ok == Value(assignments[|assignments| - 1].1)
    ensures forall k :: 0 <= k < |assignments| ==> 2 * k + 1 < |arglist| && assignments[k] == SetqPair(arglist, eval, k)
  {
    var newvalue := Nil;
    assignments := [];
    var argc := CountNodes(arglist);
    if arglist != [] && argc >= 2 {
      var current := 1;
      while current < |arglist|
        invariant current == 2 * |assignments| + 1 && 2 * |assignments| <= |arglist|
        invariant current > 1 ==> newvalue == Value(assignments[|assignments| - 1].1)
        invariant forall k :: 0 <= k < |assignments| ==> 2 * k + 1 < |arglist| && assignments[k] == SetqPair(arglist, eval, k)
        decreases |arglist| - current
      {
        newvalue := Value(eval(arglist[current + 1..]));
        assert (arglist[current].data, newvalue.data) == SetqPair(arglist, eval, |assignments|);
        assignments := assignments + [(arglist[current].data, newvalue.data)];
        if current + 1 == |arglist| {
          break;
        }
        current := current + 2;
      }
    }
    ok := newvalue;
  }
}
