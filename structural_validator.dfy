/** The structural validator of `analyzePacket` with its audit trail
    (src/App.jsx:34-36, 55-103, 126-137): the automaton of module BracketAutomaton,
    frozen after its first fault, logging every transition together with a
    snapshot of the stack, and a synthetic end-of-input entry when openers
    are left unclosed. */
module StructuralValidator {
  import opened Wrappers
  import opened BracketAutomaton

  /** The character a log entry records: a payload character, or the
      synthetic end-of-input marker (the source writes the string "EOF"). */
  datatype Symbol = Char(c: char) | Eof

  /** A structural log entry: position, character, kind of transition, the
      stack as it was at that instant, and the validity flag after it. */
  datatype PdaEntry = PdaEntry(index: nat, symbol: Symbol, action: Action, stack: seq<char>, valid: bool)

  /** The validator's state: the stack (top last), the log, and the flag
      `structureValid`. */
  datatype PdaState = PdaState(stack: seq<char>, logs: seq<PdaEntry>, valid: bool)

  const Initial: PdaState := PdaState([], [], true)

  /** The validator's reaction to character `c` at position `i`. Once the
      flag is false nothing changes any more; a character that is not a
      bracket changes nothing; a bracket is logged with the stack after the
      move, or, on a fault, with the unchanged stack. */
  function Step(s: PdaState, i: nat, c: char): (r: PdaState)
    ensures !s.valid || !IsBracket(c) ==> r == s
    ensures s.valid && IsBracket(c) ==>
      r.logs == s.logs + [PdaEntry(i, Char(c), Classify(s.stack, c).value, r.stack, r.valid)]
    ensures r.valid ==> s.valid
  {
    if !s.valid then s
    else
      match Classify(s.stack, c)
      case None => s
      case Some(a) =>
        match StackStep(s.stack, c)
        case Some(t) => PdaState(t, s.logs + [PdaEntry(i, Char(c), a, t, true)], true)
        case None => PdaState(s.stack, s.logs + [PdaEntry(i, Char(c), a, s.stack, false)], false)
  }

  /** The state after the main loop has consumed the prefix `w`. */
  function Trace(w: string): (r: PdaState)
    ensures |r.logs| <= |w|
    decreases |w|
  {
    if w == [] then Initial
    else Step(Trace(w[..|w| - 1]), |w| - 1, w[|w| - 1])
  }

  /** The end-of-input check: a still-valid state with openers left on the
      stack is logged as truncated at position `len` and becomes invalid. */
  function Finish(s: PdaState, len: nat): (r: PdaState)
    ensures r.valid <==> s.valid && s.stack == []
    ensures r.stack == s.stack && s.logs <= r.logs
    ensures r.logs != s.logs <==> s.valid && s.stack != []
  {
    if s.valid && |s.stack| > 0 then
      PdaState(s.stack, s.logs + [PdaEntry(len, Eof, Truncated, s.stack, false)], false)
    else s
  }

  /** The complete structural analysis of a payload. */
  function Validate(content: string): (r: PdaState)
    ensures r.valid ==> r.stack == []
    ensures |r.logs| <= |content| + 1
  {
    Finish(Trace(content), |content|)
  }

  /** Every entry but the last is a valid one. */
  ghost predicate FaultIsLast(logs: seq<PdaEntry>) {
    forall k :: 0 <= k < |logs| - 1 ==> logs[k].valid
  }

  ghost predicate AllValid(logs: seq<PdaEntry>) {
    forall k :: 0 <= k < |logs| ==> logs[k].valid
  }

  ghost predicate IncreasingIndices(logs: seq<PdaEntry>) {
    forall a, b :: 0 <= a < b < |logs| ==> logs[a].index < logs[b].index
  }

  /** Entry `e` truthfully records what the automaton did at the payload
      character it names: the stack snapshot is the state of the automaton on
      the prefix ending there (before the character if it was a fault, after
      it otherwise), and the action names the kind of move. */
  ghost predicate Records(content: string, e: PdaEntry) {
    e.symbol.Char? && e.index < |content| && content[e.index] == e.symbol.c &&
    var c := e.symbol.c;
    IsBracket(c) &&
    (e.valid ==> Reduce([], content[..e.index + 1]) == Some(e.stack)) &&
    (!e.valid ==> Reduce([], content[..e.index]) == Some(e.stack) && Reduce([], content[..e.index + 1]) == None) &&
    (e.action == Push <==> IsOpener(c)) &&
    (e.action == Pop <==> IsCloser(c) && e.valid) &&
    (e.action == Unexpected <==> !e.valid && e.stack == []) &&
    (e.action == Mismatch <==> !e.valid && e.stack != []) &&
    (e.action == Mismatch ==> !Closes(e.stack[|e.stack| - 1], c))
  }

  /** The characters named by the entries of a log, in order. */
  function LoggedChars(logs: seq<PdaEntry>): (r: string)
    ensures |r| <= |logs|
    decreases |logs|
  {
    if logs == [] then []
    else
      LoggedChars(logs[..|logs| - 1]) +
      (match logs[|logs| - 1].symbol case Char(c) => [c] case Eof => [])
  }

  // ---------------------------------------------------------------------
  // The main loop

  /** While valid, the validator's stack is the automaton's stack; it turns
      invalid exactly when the automaton faults. */
  lemma {:induction false} TraceFollowsReduce(w: string)
    ensures Trace(w).valid <==> Reduce([], w).Some?
    ensures Trace(w).valid ==> Trace(w).stack == Reduce([], w).value
    decreases |w|
  {
    if w != [] {
      TraceFollowsReduce(w[..|w| - 1]);
    }
  }

  /** A payload without brackets leaves the validator as it started: valid,
      with an empty stack and an empty log. */
  lemma {:induction false} TraceIgnores(w: string)
    requires forall k :: 0 <= k < |w| ==> !IsBracket(w[k])
    ensures Trace(w) == Initial
    decreases |w|
  {
    if w != [] {
      TraceIgnores(w[..|w| - 1]);
    }
  }

  /** The stack holds only openers. */
  lemma {:induction false} TraceStackOpeners(w: string)
    ensures AllOpeners(Trace(w).stack)
    decreases |w|
  {
    if w != [] {
      TraceStackOpeners(w[..|w| - 1]);
    }
  }

  /** While valid, the stack is exactly the openers still waiting for their
      closers: closing them, innermost first, balances the brackets read. */
  lemma TraceStackUnmatched(w: string)
    ensures AllOpeners(Trace(w).stack)
    ensures Trace(w).valid ==> Dyck(Brackets(w) + Closing(Trace(w).stack))
  {
    TraceStackOpeners(w);
    TraceFollowsReduce(w);
    if Trace(w).valid {
      StackIsUnmatchedOpeners(w);
    }
  }

  /** Once `structureValid` is false it stays false and nothing more is
      logged: the state after any longer prefix is the same state. */
  lemma {:induction false} FrozenAfterFault(w: string, m: nat)
    requires m <= |w| && !Trace(w[..m]).valid
    ensures Trace(w) == Trace(w[..m])
    decreases |w|
  {
    if m < |w| {
      var w' := w[..|w| - 1];
      assert w'[..m] == w[..m];
      FrozenAfterFault(w', m);
    } else {
      assert w[..m] == w;
    }
  }

  /** The log only grows, and validity only ever goes from true to false. */
  lemma {:induction false} TraceMonotone(w: string, m: nat)
    requires m <= |w|
    ensures Trace(w[..m]).logs <= Trace(w).logs
    ensures Trace(w).valid ==> Trace(w[..m]).valid
    decreases |w|
  {
    if m < |w| {
      var w' := w[..|w| - 1];
      assert w'[..m] == w[..m];
      TraceMonotone(w', m);
    } else {
      assert w[..m] == w;
    }
  }

  lemma RecordsExtend(w: string, n: nat, e: PdaEntry)
    requires n <= |w| && Records(w[..n], e)
    ensures Records(w, e)
  {
    var j := e.index;
    assert w[..n][..j] == w[..j];
    assert w[..n][..j + 1] == w[..j + 1];
  }

  /** One round of the main loop adds at most one entry, for the current
      position, and only while the flag is still true; the entry is valid
      exactly when the flag stays true. */
  lemma LastRound(w: string)
    requires w != []
    ensures var s, t := Trace(w[..|w| - 1]), Trace(w);
      t.logs == s.logs ||
      (s.valid && |t.logs| == |s.logs| + 1 && t.logs[..|s.logs|] == s.logs &&
       t.logs[|s.logs|].index == |w| - 1 && t.logs[|s.logs|].valid == t.valid)
    ensures !Trace(w[..|w| - 1]).valid ==> Trace(w) == Trace(w[..|w| - 1])
  {
  }

  /** The shape of the log after the main loop: positions lie inside the
      payload and strictly increase, an invalid entry can only be the last,
      and the flag is true exactly when no entry is invalid. */
  lemma {:induction false} TraceLogShape(w: string)
    ensures forall k :: 0 <= k < |Trace(w).logs| ==> Trace(w).logs[k].index < |w|
    ensures IncreasingIndices(Trace(w).logs)
    ensures FaultIsLast(Trace(w).logs)
    ensures Trace(w).valid <==> AllValid(Trace(w).logs)
    decreases |w|
  {
    if w != [] {
      TraceLogShape(w[..|w| - 1]);
      LastRound(w);
    }
  }

  /** Every entry of the log records a real transition. */
  lemma {:induction false} TraceRecords(w: string)
    ensures forall k :: 0 <= k < |Trace(w).logs| ==> Records(w, Trace(w).logs[k])
    decreases |w|
  {
    if w != [] {
      var w', i := w[..|w| - 1], |w| - 1;
      var s, t := Trace(w'), Trace(w);
      TraceRecords(w');
      LastRound(w);
      forall k | 0 <= k < |t.logs| ensures Records(w, t.logs[k]) {
        if k < |s.logs| {
          assert t.logs[k] == s.logs[k];
          RecordsExtend(w, i, s.logs[k]);
        } else {
          NewEntryRecords(w);
        }
      }
    }
  }

  /** The entry a round adds records the move it made. */
  lemma NewEntryRecords(w: string)
    requires w != []
    ensures var s, t := Trace(w[..|w| - 1]), Trace(w);
      |t.logs| == |s.logs| + 1 ==> Records(w, t.logs[|s.logs|])
  {
    var s := Trace(w[..|w| - 1]);
    if s.valid && IsBracket(w[|w| - 1]) {
      TraceFollowsReduce(w[..|w| - 1]);
      StepRecords(w, s);
    }
  }

  /** The last character of `w`, a bracket read from a valid state whose
      stack is the automaton's, is logged with the automaton's move. */
  lemma StepRecords(w: string, s: PdaState)
    requires w != [] && s.valid && IsBracket(w[|w| - 1])
    requires Reduce([], w[..|w| - 1]) == Some(s.stack)
    ensures Records(w, Step(s, |w| - 1, w[|w| - 1]).logs[|s.logs|])
  {
    var c := w[|w| - 1];
    var r := Step(s, |w| - 1, c);
    assert w[..|w|] == w;
    assert Reduce([], w) == StackStep(s.stack, c);
    assert r.logs[|s.logs|] == PdaEntry(|w| - 1, Char(c), Classify(s.stack, c).value, r.stack, r.valid);
  }

  /** Both together. */
  lemma TraceLogs(w: string)
    ensures forall k :: 0 <= k < |Trace(w).logs| ==> Records(w, Trace(w).logs[k])
    ensures IncreasingIndices(Trace(w).logs)
    ensures FaultIsLast(Trace(w).logs)
    ensures Trace(w).valid <==> AllValid(Trace(w).logs)
  {
    TraceLogShape(w);
    TraceRecords(w);
  }

  /** The characters logged so far are a prefix of the bracket subsequence,
      and all of it while the flag is still true: every bracket met while
      valid gets exactly one entry. */
  lemma {:induction false} TraceLoggedChars(w: string)
    ensures LoggedChars(Trace(w).logs) <= Brackets(w)
    ensures Trace(w).valid ==> LoggedChars(Trace(w).logs) == Brackets(w)
    decreases |w|
  {
    if w != [] {
      var w', c := w[..|w| - 1], w[|w| - 1];
      var s := Trace(w');
      TraceLoggedChars(w');
      var logs := Trace(w).logs;
      if s.valid && logs != s.logs {
        assert logs[..|logs| - 1] == s.logs;
        assert LoggedChars(logs) == LoggedChars(s.logs) + [c];
      }
    }
  }

  /** One round of the main loop, as the structural specification sees it. */
  lemma TraceStep(content: string, i: nat)
    requires i < |content|
    ensures Trace(content[..i + 1]) == Step(Trace(content[..i]), i, content[i])
  {
    assert content[..i + 1][..i] == content[..i];
  }

  lemma StepPush(s: PdaState, i: nat, c: char)
    requires s.valid && IsOpener(c)
    ensures Step(s, i, c) == PdaState(s.stack + [c], s.logs + [PdaEntry(i, Char(c), Push, s.stack + [c], true)], true)
  {
  }

  lemma StepUnexpected(s: PdaState, i: nat, c: char)
    requires s.valid && IsCloser(c) && s.stack == []
    ensures Step(s, i, c) == PdaState(s.stack, s.logs + [PdaEntry(i, Char(c), Unexpected, s.stack, false)], false)
  {
  }

  lemma StepPop(s: PdaState, i: nat, c: char)
    requires s.valid && IsCloser(c) && s.stack != [] && Closes(s.stack[|s.stack| - 1], c)
    ensures var t := s.stack[..|s.stack| - 1];
      Step(s, i, c) == PdaState(t, s.logs + [PdaEntry(i, Char(c), Pop, t, true)], true)
  {
  }

  lemma StepMismatch(s: PdaState, i: nat, c: char)
    requires s.valid && IsCloser(c) && s.stack != [] && !Closes(s.stack[|s.stack| - 1], c)
    ensures Step(s, i, c) == PdaState(s.stack, s.logs + [PdaEntry(i, Char(c), Mismatch, s.stack, false)], false)
  {
  }

  lemma StepIgnored(s: PdaState, i: nat, c: char)
    requires !s.valid || !IsBracket(c)
    ensures Step(s, i, c) == s
  {
  }

  /** The structural half of one round of the main loop, on the loop's own
      variables: push an opener, pop a matching closer, log and stop on an
      unexpected or mismatched closer, and ignore everything else. */
  method ValidatorRound(stack: seq<char>, structureValid: bool, pdaLogs: seq<PdaEntry>, i: nat, rawChar: char)
    returns (stack': seq<char>, structureValid': bool, pdaLogs': seq<PdaEntry>)
    ensures PdaState(stack', pdaLogs', structureValid') == Step(PdaState(stack, pdaLogs, structureValid), i, rawChar)
  {
    ghost var s := PdaState(stack, pdaLogs, structureValid);
    stack', structureValid', pdaLogs' := stack, structureValid, pdaLogs;
    if structureValid {
      if rawChar == '<' || rawChar == '{' || rawChar == '(' {
        stack' := stack + [rawChar];
        pdaLogs' := pdaLogs + [PdaEntry(i, Char(rawChar), Push, stack', true)];
        StepPush(s, i, rawChar);
      } else if rawChar == '>' || rawChar == '}' || rawChar == ')' {
        if |stack| == 0 {
          pdaLogs' := pdaLogs + [PdaEntry(i, Char(rawChar), Unexpected, stack, false)];
          structureValid' := false;
          StepUnexpected(s, i, rawChar);
        } else {
          var top := stack[|stack| - 1];
          var matched :=
            (rawChar == '>' && top == '<') ||
            (rawChar == '}' && top == '{') ||
            (rawChar == ')' && top == '(');
          if matched {
            stack' := stack[..|stack| - 1];
            pdaLogs' := pdaLogs + [PdaEntry(i, Char(rawChar), Pop, stack', true)];
            StepPop(s, i, rawChar);
          } else {
            pdaLogs' := pdaLogs + [PdaEntry(i, Char(rawChar), Mismatch, stack, false)];
            structureValid' := false;
            StepMismatch(s, i, rawChar);
          }
        }
      } else {
        StepIgnored(s, i, rawChar);
      }
    } else {
      StepIgnored(s, i, rawChar);
    }
  }

  // ---------------------------------------------------------------------
  // After the end-of-input check

  /** The headline property: the final flag is true exactly when the bracket
      subsequence of the payload is balanced, and then the stack is empty. */
  lemma ValidateIffDyck(content: string)
    ensures Validate(content).valid <==> Dyck(Brackets(content))
    ensures Validate(content).valid ==> Validate(content).stack == []
    ensures AllOpeners(Validate(content).stack)
  {
    TraceFollowsReduce(content);
    TraceStackOpeners(content);
    AcceptsIffDyck(content);
  }

  /** The final log: at most one invalid entry, and it is the last; the flag
      is true exactly when there is none; the synthetic end-of-input entry,
      if any, is last, at position `|content|`, a truncation, and carries the
      unclosed openers; every other entry records a real transition. */
  lemma ValidateLogs(content: string)
    ensures FaultIsLast(Validate(content).logs)
    ensures Validate(content).valid <==> AllValid(Validate(content).logs)
    ensures IncreasingIndices(Validate(content).logs)
    ensures forall k :: 0 <= k < |Validate(content).logs| ==>
      var e := Validate(content).logs[k];
      if e.symbol.Char? then Records(content, e)
      else
        k == |Validate(content).logs| - 1 && e.index == |content| && e.action == Truncated &&
        !e.valid && e.stack != [] && Reduce([], content) == Some(e.stack)
    ensures LoggedChars(Validate(content).logs) <= Brackets(content)
  {
    ValidateLogShape(content);
    ValidateEntries(content);
    ValidateLoggedChars(content);
  }

  /** The end-of-input check keeps the shape of the log. */
  lemma ValidateLogShape(content: string)
    ensures FaultIsLast(Validate(content).logs)
    ensures Validate(content).valid <==> AllValid(Validate(content).logs)
    ensures IncreasingIndices(Validate(content).logs)
  {
    var s := Trace(content);
    var logs := Validate(content).logs;
    TraceLogShape(content);
    if logs != s.logs {
      var e := PdaEntry(|content|, Eof, Truncated, s.stack, false);
      assert logs == s.logs + [e];
      assert forall k :: 0 <= k < |s.logs| ==> logs[k] == s.logs[k];
      assert logs[|s.logs|] == e;
      assert AllValid(s.logs);
    }
  }

  /** Each entry of the final log records its transition, or is the
      end-of-input entry. */
  lemma ValidateEntries(content: string)
    ensures forall k :: 0 <= k < |Validate(content).logs| ==>
      var e := Validate(content).logs[k];
      if e.symbol.Char? then Records(content, e)
      else
        k == |Validate(content).logs| - 1 && e.index == |content| && e.action == Truncated &&
        !e.valid && e.stack != [] && Reduce([], content) == Some(e.stack)
  {
    var s := Trace(content);
    var logs := Validate(content).logs;
    TraceRecords(content);
    TraceFollowsReduce(content);
    forall k | 0 <= k < |logs|
      ensures var e := logs[k];
        if e.symbol.Char? then Records(content, e)
        else
          k == |logs| - 1 && e.index == |content| && e.action == Truncated &&
          !e.valid && e.stack != [] && Reduce([], content) == Some(e.stack)
    {
      if k < |s.logs| {
        assert logs[k] == s.logs[k];
        assert Records(content, s.logs[k]);
      }
    }
  }

  /** The end-of-input entry names no payload character. */
  lemma ValidateLoggedChars(content: string)
    ensures LoggedChars(Validate(content).logs) <= Brackets(content)
  {
    var s := Trace(content);
    var logs := Validate(content).logs;
    TraceLoggedChars(content);
    if logs != s.logs {
      assert logs[..|logs| - 1] == s.logs;
      assert LoggedChars(logs) == LoggedChars(s.logs);
    }
  }


  /** The end-of-input entry is added exactly when the main loop ended valid
      with openers left on the stack. */
  lemma TruncatedIff(content: string)
    ensures (exists k :: 0 <= k < |Validate(content).logs| && Validate(content).logs[k].symbol == Eof)
        <==> (Reduce([], content).Some? && Reduce([], content).value != [])
  {
    TraceFollowsReduce(content);
    TraceLogs(content);
    var logs := Validate(content).logs;
    if Trace(content).valid && Trace(content).stack != [] {
      assert logs[|logs| - 1].symbol == Eof;
    } else {
      forall k | 0 <= k < |logs| ensures logs[k].symbol != Eof {
        assert Records(content, logs[k]);
      }
    }
  }
}
