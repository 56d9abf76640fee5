# GNU Zile: command dispatch, windows and minibuffer reads

This project is a Dafny model of GNU Zile's command and window layer, with proofs of its properties. It covers four pieces:

- **Command registry and dispatcher** (`lisp.dfy`, module `Lisp`).
  - The name→function table `fentry_table` and its lookups: `get_fentry`, `get_function`, `get_function_doc` and the reverse `get_function_name`.
  - `execute_with_uniarg`: the repetition loop bracketed by undo markers.
  - `execute_function`: a built-in first, then a macro.
  - `execute-extended-command`: its prompt, the candidate list of `minibuf_read_function_name`, `countNodes` and the pair walk of `setq`.
- **Window list** (`window.dfy`, module `Windows`).
  - The linked list `head_wp`/`cur_wp` and the current buffer `cur_bp` are one `Frame` object. It holds the windows in list order, the index of the current one, the current buffer and each buffer's point.
  - Every window command works on that object, reading it or updating it in place: split, delete, enlarge, shrink, popup, delete-other-windows, other-window, find, `window_pt`, `set_current_window` and `recenter`.
- **Window geometry** (`redisplay.dfy`, module `Redisplay`).
  - `resync_redisplay`.
  - `resize_windows`: its width loop, its round-robin grow loop and its shrink loop.
- **Minibuffer read loops** (`minibuf.dfy`, module `Minibuf`).
  - `minibuf_read_number`, `minibuf_read_yn`, `minibuf_read_yesno`, `minibuf_vread_completion` and `minibuf_read_filename`.
  - The terminal becomes a script of inputs: one element per call of `term_minibuf_read` or `getkey`, with `None` for a cancelled read.
  - Everything a loop does to the outside world is returned as a list of effects: messages, `keyboard_quit`, popups and history appends.
  - Each loop is a `method` proved equal to one shared specification, `RetryLoop`. It says that attempt k consumes input k, and that the loop stops at the first attempt that yields a value.

`wrappers.dfy` holds the `Option` type.

## Conventions

- **Oracles.** Foreign code is a function parameter:
  - the Lua completion engine (`completion_try`, `minibuf_test_in_completions`);
  - `strtoul`, `expand_path` and `compact_path`;
  - the buffer names;
  - the built-ins themselves (`Function` pointers are `FuncId`s; calling one is a function of the id and the argument);
  - `evaluateNode`.
- **Integer widths.** `unsigned long` and `size_t` are 64 bits wide (LP64), so `SIZE_MAX == ULONG_MAX == 2^64 - 1`. Window heights are `int`; widths, `topdelta` and line numbers are `nat`.
- **Code over expectation.** Where the code does something other than what one might expect, the model follows the code:
  - an empty answer in `minibuf_vread_completion` ends the read with NULL; it does not ask again;
  - a NONUNIQUE completion still goes to the membership test;
  - a negative count with no backward function makes no call and gives `t`;
  - a built-in shadows a macro of the same name;
  - `resync_redisplay` follows an upward move of the point whenever the old row is far enough from the top, even when the new row would still be below the text rows; only a downward move is compared with `eheight`;
  - `minibuf_read_number` returns `SIZE_MAX` on cancel, which on LP64 is `ULONG_MAX`. So "never returns `ULONG_MAX`" holds only for reads that were not cancelled, and the model states the exact condition.

## Model

| member | source | states |
|---|---|---|
| Lisp.FindByName | src/lisp.c:62-65 | the index found is the first entry at or after i with exactly that name; None means no such entry |
| Lisp.GetFentry | src/lisp.c:57-66 | get_fentry gives the first entry whose name equals the argument, and None iff no entry has that name |
| Lisp.GetFunction | src/lisp.c:68-73 | None exactly for unknown names; otherwise the function of the first entry with that name |
| Lisp.GetFunctionDoc | src/lisp.c:75-80 | None exactly for unknown names; otherwise the doc of the first entry with that name |
| Lisp.FindByFunc | src/lisp.c:86-89 | the index found is the first entry at or after i holding f; None means no such entry |
| Lisp.GetFunctionName | src/lisp.c:82-90 | the name of the first entry holding f, and None iff no entry holds it |
| Lisp.RegistryRoundTrip | src/lisp.c:57-80 | with unique names, looking up any entry's name returns that entry's function and doc |
| Lisp.NameThenFunction | src/lisp.c:68-90 | with unique names, get_function (get_function_name (f)) == f for every registered f |
| Lisp.FunctionThenName | src/lisp.c:68-90 | for a function held by one entry only, get_function_name inverts get_function |
| Lisp.Repeat | src/lisp.c:105-106 | the loop makes no call and keeps ret true when count <= k; otherwise it makes between 1 and count - k calls |
| Lisp.RepeatMeaning | src/lisp.c:95-110 | ret is t iff every call made returned true; then all count calls were made; otherwise the loop stopped right after the first false call |
| Lisp.ChosenDirection | src/lisp.c:98-102 | the backward function is called iff there is one and uniarg < 0 |
| Lisp.ChosenCount | src/lisp.c:96-102 | backward is chosen iff it is non-null and uniarg < 0, and then the count is -uniarg > 0; otherwise the count is uniarg unchanged |
| Lisp.RepeatLoop | src/lisp.c:105-106 | the imperative loop makes exactly the calls Repeat describes and ends with its ret |
| Lisp.ExecuteWithUniarg | src/lisp.c:92-111 | the result is bool_to_lisp of the loop's ret; the events are the calls of the chosen function, inside an undo bracket when undo is set |
| Lisp.CallsMultiset | src/lisp.c:105-106 | n calls hold n call events and no undo marker |
| Lisp.UndoBracket | src/lisp.c:103-108 | with undo, exactly one start marker first and one end marker last, however early the loop stopped; without undo, none |
| Lisp.ThirdFailureStopsFiveSteps | src/lisp.c:105-106 | a count of 5 whose third call fails makes exactly 3 calls and returns nil |
| Lisp.GetMacro | src/lisp.c:123 | the first macro with that name (no earlier macro has it), and None iff no macro has it |
| Lisp.ExecuteFunction | src/lisp.c:113-131 | a built-in runs iff one has the name; otherwise the macro get_macro finds, the first of that name, is played and the result is t; otherwise the result is nil and nothing runs |
| Lisp.DigitChar | src/lisp.c:146 | the character of a decimal digit, whose code minus '0' is the digit |
| Lisp.DecimalDigits | src/lisp.c:146 | %d's digits of n: all digits, reading back as n, with no leading zero |
| Lisp.FormatInt | src/lisp.c:146 | %d of n: '-' iff n < 0, then the digits of abs(n) with no leading zero, reading back as n |
| Lisp.ExtendedCommandPrompt | src/lisp.c:141-148 | "M-x " without a set argument, "C-u M-x " for an empty one, "<n> M-x " for a number n |
| Lisp.InteractiveNamesMembers | src/lisp.c:172-174 | a name is offered iff some entry flagged interactive carries it |
| Lisp.FunctionNameCandidates | src/lisp.c:172-176 | the candidate list is the interactive entries' names followed by the macro names, as a multiset too |
| Lisp.MinibufReadFunctionName | src/lisp.c:164-187 | the name read is the result of a completion read over those candidates, with the functions history and the two error texts |
| Lisp.FunctionNameIsCandidate | src/lisp.c:172-183 | when membership is exact, every name read is an interactive built-in or a macro |
| Lisp.ExecuteExtendedCommand | src/lisp.c:133-157 | a cancelled or empty read gives nil and runs nothing; otherwise the name read is executed through execute_function with uniarg |
| Lisp.CountNodes | src/lisp.c:189-199 | the count is the length of the list |
| Lisp.Setq | src/lisp.c:281-313 | fewer than two nodes give nil and no assignment; otherwise assignment k sets symbol 2k+1 to the value of the list from node 2k+2 on, one per two nodes, an odd trailing symbol included, and the result is the last value |
| Minibuf.FirstEnd | src/minibuf.c:238-299 | the first attempt at or after i that ends the loop; all attempts before it ask for a retry |
| Minibuf.RetryLoop | src/minibuf.c:238-299 | a retry loop stops at its first ending attempt, after the effects of every attempt made |
| Minibuf.RetryLoopStopsAt | src/minibuf.c:238-299 | the loop stops at n exactly when n is the first attempt that yields a result |
| Minibuf.EffectsOfSingleSteps | src/minibuf.c:183-199 | when every attempt shows one thing, attempt k's is at position k |
| Minibuf.HistoryAppendsConcat | src/minibuf.c:283-289 | history appends add up over concatenated effects |
| Minibuf.HistoryAppendsZero | src/minibuf.c:283-289 | effects without an append count no append |
| Minibuf.NumberStep | src/minibuf.c:110-125 | one round reads with the prompt and an empty value; cancel gives SIZE_MAX after keyboard_quit; empty gives ULONG_MAX - 1; it asks again, after "Please enter a number.", iff a non-empty answer parses to ULONG_MAX, and an accepted non-empty answer is the number strtoul parses, never ULONG_MAX, with no message |
| Minibuf.ReadNumber | src/minibuf.c:104-129 | the do/while loop returns the value RetryLoop gives over the read-number step and shows its effects |
| Minibuf.ReadNumberOutcome | src/minibuf.c:108-126 | ULONG_MAX (= SIZE_MAX) is returned iff the read was cancelled, after keyboard_quit; an empty answer gives ULONG_MAX - 1; any other final answer gives strtoul of it; every rejected input was non-empty and parsed to ULONG_MAX |
| Minibuf.NumberPromptsBefore | src/minibuf.c:123-126 | each of n rejected rounds shows "Please enter a number." once |
| Minibuf.NumberPrompts | src/minibuf.c:108-126 | "Please enter a number." is shown exactly once per rejected input |
| Minibuf.YnStep | src/minibuf.c:185-198 | one round shows the prompt, bare in the first round and after "Please answer y or n.  " later; 'y' gives 1, 'n' gives 0, C-g gives -1, and any other key asks again |
| Minibuf.ReadYn | src/minibuf.c:178-200 | the loop returns the value RetryLoop gives over the y/n step and shows its prompts |
| Minibuf.ReadYnOutcome | src/minibuf.c:183-199 | 1, 0 or -1 iff the deciding key is 'y', 'n' or C-g, and every earlier key was none of them |
| Minibuf.ReadYnPrompts | src/minibuf.c:181-198 | one prompt per key read: bare the first time, after "Please answer y or n.  " every later time |
| Minibuf.CompletionStepMeaning | src/minibuf.c:240-297 | one round reads with the caller's prompt and value; cancel gives NULL after keyboard_quit; empty gives NULL after empty_err; it asks again, after invalid_err and a wait, iff the completed text fails the membership test; otherwise it returns that text, which passed the test, and clears the minibuffer |
| Minibuf.CompletionRound | src/minibuf.c:240-297 | one round of the vread loop does exactly what the completion step specifies |
| Minibuf.VreadCompletion | src/minibuf.c:231-302 | the for (;;) loop returns the value RetryLoop gives over the completion step, with its effects |
| Minibuf.VreadOutcome | src/minibuf.c:240-297 | cancel gives NULL after keyboard_quit; empty gives NULL after empty_err; a result is non-NULL iff the last input was non-empty, and then it is the completed text that passed the membership test; every rejected input was non-empty and failed the test |
| Minibuf.NonUniqueStillTested | src/minibuf.c:264-281 | a NONUNIQUE completion pops up the list and the unchanged text still goes to the membership test |
| Minibuf.VreadRereadsValue | src/minibuf.c:240 | every round reads with the caller's prompt and original value |
| Minibuf.RejectionsAddNoHistory | src/minibuf.c:293-297 | rejected rounds append nothing to any history |
| Minibuf.CompletionStepHistory | src/minibuf.c:281-291 | a round appends to the history exactly once, with the accepted text, iff it accepts and a history was given |
| Minibuf.VreadHistory | src/minibuf.c:238-299 | the whole read appends exactly one entry, the returned text, iff it returns one and a history was given |
| Minibuf.ReadYesNo | src/minibuf.c:202-219 | 1 iff the accepted answer is "yes", 0 for any other accepted answer, -1 on NULL |
| Minibuf.CursorPos | src/minibuf.c:151-153 | the cursor is at len(path) - len(file) when file is given, wrapped modulo 2^64 when the name is longer than the path |
| Minibuf.ReadFilename | src/minibuf.c:134-176 | NULL when the starting or the entered path fails to expand; otherwise the expanded entry; the effects are exactly one read of the compacted path at the cursor offset, then one files-history append of the entry iff a path is returned |
| Windows.TotalRowsConcat | src/window.c:128-133 | rows add up over concatenated window lists |
| Windows.TotalRowsUpdate | src/window.c:128-133 | replacing a window changes the total by its change in height |
| Windows.TotalRowsInsert | src/window.c:136-139 | linking in a window adds its rows |
| Windows.TotalRowsRemove | src/window.c:148-156 | unlinking a window takes its rows off |
| Windows.RecenterTop | src/redisplay.c:116-119 | topdelta becomes min(point line, eheight / 2) |
| Windows.Refit | src/window.c:134-135 | a window is recentred exactly when topdelta >= eheight, its topdelta then becoming min(point line, eheight / 2), and nothing else about it changes |
| Windows.Frame.constructor | src/window.c:304-323 | create_scratch_window: one window of width w and h - 1 rows, eheight h - 2, current, showing the scratch buffer |
| Windows.Frame.WindowPt | src/window.c:337-358 | a window without a saved point shows its buffer's point; one with a saved point is not current and shows the saved point |
| Windows.Frame.SetCurrentWindow | src/window.c:86-109 | the old current window saves the point; the chosen one becomes current, its buffer current, with no saved point, and its saved point restored; both windows show what they showed before |
| Windows.Frame.Recenter | src/redisplay.c:111-120 | only the window's topdelta changes, to min(line, eheight / 2) |
| Windows.Frame.SetWindow | src/window.c:205-210 | updating one window keeps the frame's invariant and changes the total by the height change |
| Windows.Frame.SplitWindow | src/window.c:111-140 | fails iff fheight < 4, changing nothing; otherwise the current window keeps floor(h/2) rows and a new window of ceil(h/2) rows on the same buffer and point follows it; all others and their order are unchanged; total rows kept |
| Windows.Frame.InsertWindow | src/window.c:136-139 | the window is linked in at position k; the rest keep their order |
| Windows.Frame.RemoveWindow | src/window.c:148-156 | the window at k is unlinked; the rest keep their order |
| Windows.Frame.DeleteWindow | src/window.c:143-166 | the current window leaves; its predecessor, or the new head, gains its rows and becomes current; order and total rows kept |
| Windows.Frame.DeleteWindowCommand | src/window.c:168-180 | refuses iff the current window is the only one, changing nothing; otherwise the current window leaves and its predecessor, or the new head, gains its rows and becomes current, showing its point; order and total rows kept |
| Windows.Frame.EnlargeDonor | src/window.c:190-205 | the donor is the next window when it has >= 3 rows, else the previous one on the same terms; None exactly when neither qualifies or there is one window |
| Windows.Frame.EnlargeWindow | src/window.c:183-212 | fails iff there is no donor; otherwise exactly one row moves from the donor (recentred if needed) to the current window; total rows kept |
| Windows.Frame.ShrinkWindow | src/window.c:215-239 | fails iff there is one window or the current one has < 3 rows; otherwise one row moves to the next window, or the previous one when it is last; total rows kept |
| Windows.Frame.PopupWindow | src/window.c:242-258 | never the current window: with one window of fewer than 4 rows None and nothing changes, with one larger window the split's new lower half on the same buffer and point, else the successor or the head |
| Windows.Frame.DeleteOtherWindows | src/window.c:260-286 | only the current window remains, with width w, fheight h - 1 and eheight h - 2 |
| Windows.Frame.OtherWindow | src/window.c:289-297 | the next window, or the head after the last, becomes current with no saved point and its buffer current; the window left saves the point; every window shows the point it showed; no other window changes; total rows kept |
| Windows.Frame.FindWindow | src/window.c:325-335 | the first window whose buffer has that name, and None iff there is none |
| Redisplay.ResyncTopdelta | src/redisplay.c:31-41 | an unmoved point keeps topdelta; a downward move whose row stays above eheight shifts it by delta; an upward move shifts it whenever topdelta >= the distance moved, even if the row stays below the text rows; otherwise recenter; a point row inside the window stays inside |
| Redisplay.BackwardMoveKeepsOffset | src/redisplay.c:35-37 | a point moving up one line with topdelta 10 in a window of 3 text rows gets topdelta 9, not a recentred one |
| Redisplay.ResyncRedisplay | src/redisplay.c:28-44 | only the current window's topdelta and lastpointn change; lastpointn ends as the point line |
| Redisplay.ShareOfRounds | src/redisplay.c:73-80 | after full rounds and pos more rows, window j has had its round-robin share |
| Redisplay.ShareAtLeast | src/redisplay.c:88-96 | the row taken from window j in round p is among its share |
| Redisplay.GrowHeights | src/redisplay.c:71-81 | d rows are handed out one at a time round-robin from the head; fheight and eheight rise together; the total grows by d |
| Redisplay.ShrinkPass | src/redisplay.c:88-104 | one pass takes a row from each window of more than 2 rows while rows remain to be taken, keeping the round-robin state |
| Redisplay.ShrinkHeights | src/redisplay.c:83-105 | with several windows, each loses its round-robin share of e rows and the total drops by e; a single window gives up rows only while above 2 |
| Redisplay.ResizeWindows | src/redisplay.c:46-109 | every window takes width w; each height changes by its share of the rows missing or in excess; the total becomes h - 1 (except a single window that cannot shrink enough); the current window is recentred |
| Redisplay.WidthsKeepResize | src/redisplay.c:56-63 | setting widths changes neither the rows nor the height changes |
| Redisplay.ResizeDelta | src/redisplay.c:70-106 | rows missing are shared out one round-robin share per window (d/n or d/n + 1); rows in excess are taken the same way from several windows; a single window gives up rows only while above 2, all of them or down to 2 |
| Redisplay.ResizeHeights | src/redisplay.c:70-106 | each window's height changes by ResizeDelta and stays >= 1; the total becomes h - 1 (except a single window that cannot shrink enough) |
| Redisplay.ResizedWindows | src/redisplay.c:56-106 | both loops on the list: each window takes width w and its ResizeDelta change in height, keeping its status line; the total becomes h - 1 (except a single window that cannot shrink enough) |
| Redisplay.SetWidths | src/redisplay.c:56-63 | fwidth becomes the terminal width and ewidth equals it, heights unchanged |
| Redisplay.RowsMissing | src/redisplay.c:67-68 | hdelta is h - 1 less the total rows |
| Redisplay.ResizeKeepsRows | src/redisplay.c:71-105 | resizing never leaves a window without its status line |

## Left out

- Terminal I/O (`term_minibuf_read`, `getkey`, `minibuf_write`, `term_full_redisplay`, `waitkey` delays, `ding`): replaced by input scripts and returned effects. The redisplay done by the `recenter` command and by `resize_windows` is not modelled.
- The Lua side: `CLUE_*` and `lua_*` plumbing, `init_lisp`, `init_eval`, `leNew` and `call_zile_command`. The completion engine, the history store, `popup_completion` and `keyboard_quit` appear only as oracle functions or recorded effects.
- `lisp_loadstring`, `lisp_loadfile` and `load`: file I/O and the Lua evaluator. `evaluateNode` in `setq` is an oracle, and `set_variable` is recorded as a (symbol, value) pair.
- `completion_scroll_up` and `completion_scroll_down`: they depend on the scroll commands.
- `free_window`, `free_windows` and marker allocation: a saved point is the `Point` it holds, and markers do not follow edits to their buffer.
- Lisp.FunctionNameCandidates: the completion list of `minibuf_read_function_name` is kept sorted by `gl_sortedlist_add`. The model uses table order and then the macros, and its contract fixes this order, which differs from the source's sorted order.
- Lisp.ExecuteWithUniarg: the undo markers carry `get_buffer_pt (cur_bp)` as their point. The model records the start and end markers without a point, because the buffer is not part of this model.
- Lisp.ExecuteWithUniarg: negating `INT_MIN` overflows in C. The model uses unbounded integers.
- Lisp.ExecuteExtendedCommand: on a cancelled or empty read the command returns `false` (0). What 0 means as a Lisp value depends on how `DEFUN` and `leNIL` are defined in `main.h`, which is not part of this model. The model takes it as nil.
- Minibuf.CursorPos and Minibuf.ReadFilename: `astr_len` and `strlen` count bytes. The model counts the characters of a `string`, which is the same only for single-byte text.
- Windows.Frame.DeleteWindow: requires that the deleted window is the current one.
  - `delete_window` unlinks `cur_wp` whatever its argument, so that is the only call it handles correctly.
  - `delete-window` always calls it that way.
- Redisplay.ResizeWindows: requires ShrinkFits, so its delete branch is never reached. That branch calls `delete_window` with a window that need not be current (see the line above). When the branch cannot fire, every window of several keeps at least 2 rows after giving up its share.
- Redisplay.ResizeWindows: `h` is a parameter standing for the Lua global `h` that the code reads. The code stores `term_height ()` in the global `w` and then reads `h`, so it uses whatever `h` was last set to, for example by `delete-other-windows`.
- Windows.Frame.DeleteOtherWindows and Windows.Frame.constructor: require h >= 2. For h < 2, `h - 1` wraps around in `size_t` before it reaches the heights, and the model does not follow that.
- Redisplay.ResyncTopdelta: `delta` is an `int` difference of line numbers. The model does not follow its overflow for line numbers beyond the `int` range.
- Error messages of the window commands ("Window height %d too small for splitting", "Attempt to delete sole ordinary window") are not recorded. The commands report failure through their boolean result.
- Built-ins are identified by `FuncId`. The rows of `fentry_table` come from `tbl_funcs.h`, which is not part of this model, so the table is a parameter.
