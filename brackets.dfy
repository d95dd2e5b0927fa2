/** The pushdown automaton behind the structural validator
    (src/App.jsx:56-102), reduced to its stack, and an independent reference
    definition of balanced bracket words (the Dyck language over the pairs
    `<>`, `{}`, `()`), together with the proof that the automaton accepts
    exactly the balanced words. */
module BracketAutomaton {
  import opened Wrappers

  predicate IsOpener(c: char) { c == '<' || c == '{' || c == '(' }

  predicate IsCloser(c: char) { c == '>' || c == '}' || c == ')' }

  predicate IsBracket(c: char) { IsOpener(c) || IsCloser(c) }

  /** `top` is the opener that the closer `c` closes. */
  predicate Closes(top: char, c: char) {
    (c == '>' && top == '<') || (c == '}' && top == '{') || (c == ')' && top == '(')
  }

  ghost predicate AllOpeners(s: seq<char>) {
    forall k :: 0 <= k < |s| ==> IsOpener(s[k])
  }

  ghost predicate AllBrackets(s: seq<char>) {
    forall k :: 0 <= k < |s| ==> IsBracket(s[k])
  }

  /** The closer of an opener: the only character that closes it. */
  function CloserOf(o: char): (c: char)
    requires IsOpener(o)
    ensures Closes(o, c)
    ensures forall d :: Closes(o, d) ==> d == c
  {
    if o == '<' then '>' else if o == '{' then '}' else ')'
  }

  /** The kind of a structural transition, as recorded in the log. */
  datatype Action = Push | Pop | Unexpected | Mismatch | Truncated

  /** Which transition a character causes on a stack whose top is its last
      element; `None` for a character that is not a bracket. */
  function Classify(stack: seq<char>, c: char): (r: Option<Action>)
    ensures r.None? <==> !IsBracket(c)
    ensures r == Some(Push) <==> IsOpener(c)
    ensures r == Some(Unexpected) <==> IsCloser(c) && stack == []
    ensures r == Some(Pop) <==> IsCloser(c) && stack != [] && Closes(stack[|stack| - 1], c)
    ensures r == Some(Mismatch) <==> IsCloser(c) && stack != [] && !Closes(stack[|stack| - 1], c)
  {
    if IsOpener(c) then Some(Push)
    else if IsCloser(c) then
      if |stack| == 0 then Some(Unexpected)
      else if Closes(stack[|stack| - 1], c) then Some(Pop)
      else Some(Mismatch)
    else None
  }

  /** One move of the automaton on its stack; `None` is a structural fault
      (an unexpected or a mismatched closer). */
  function StackStep(stack: seq<char>, c: char): (r: Option<seq<char>>)
    ensures r.None? <==> IsCloser(c) && (stack == [] || !Closes(stack[|stack| - 1], c))
    ensures IsOpener(c) ==> r == Some(stack + [c])
    ensures r.Some? && IsCloser(c) ==> stack != [] && r == Some(stack[..|stack| - 1])
    ensures !IsBracket(c) ==> r == Some(stack)
  {
    match Classify(stack, c)
    case None => Some(stack)
    case Some(Push) => Some(stack + [c])
    case Some(Pop) => Some(stack[..|stack| - 1])
    case Some(_) => None
  }

  /** The automaton run over `w` from `stack`, one character at a time. */
  function Reduce(stack: seq<char>, w: seq<char>): (r: Option<seq<char>>)
    ensures r.Some? ==> |r.value| <= |stack| + |w|
    decreases |w|
  {
    if w == [] then Some(stack)
    else
      match Reduce(stack, w[..|w| - 1])
      case None => None
      case Some(s) => StackStep(s, w[|w| - 1])
  }

  /** Continue a run over `b`, unless it already faulted. */
  function Then(r: Option<seq<char>>, b: seq<char>): (t: Option<seq<char>>)
    ensures r.None? ==> t.None?
  {
    match r
    case None => None
    case Some(s) => Reduce(s, b)
  }

  /** The bracket characters of `w`, in order. */
  function Brackets(w: seq<char>): (r: seq<char>)
    ensures AllBrackets(r) && |r| <= |w|
    decreases |w|
  {
    if w == [] then []
    else Brackets(w[..|w| - 1]) + (if IsBracket(w[|w| - 1]) then [w[|w| - 1]] else [])
  }

  /** Reference definition of "well nested and fully closed": a word is
      balanced when it is empty, or when deleting some adjacent matched pair
      leaves a balanced word. */
  ghost predicate Dyck(w: seq<char>)
    decreases |w|, 1
  {
    w == [] || exists i :: 0 <= i < |w| - 1 && CancelsAt(w, i)
  }

  /** Positions `i` and `i + 1` of `w` hold a matched pair whose deletion
      leaves a balanced word. */
  ghost predicate CancelsAt(w: seq<char>, i: nat)
    requires i < |w| - 1
    decreases |w|, 0
  {
    Closes(w[i], w[i + 1]) && Dyck(w[..i] + w[i + 2..])
  }

  // ---------------------------------------------------------------------
  // Facts about runs

  /** A run over `a + b` is a run over `a` continued over `b`. */
  lemma {:induction false} ReduceAppend(stack: seq<char>, a: seq<char>, b: seq<char>)
    ensures Reduce(stack, a + b) == Then(Reduce(stack, a), b)
    decreases |b|
  {
    if b == [] {
      assert a + b == a;
    } else {
      var b' := b[..|b| - 1];
      assert (a + b)[..|a + b| - 1] == a + b';
      assert (a + b)[|a + b| - 1] == b[|b| - 1];
      ReduceAppend(stack, a, b');
    }
  }

  lemma ReduceSingle(stack: seq<char>, c: char)
    ensures Reduce(stack, [c]) == StackStep(stack, c)
  {
    assert [c][..0] == [];
  }

  /** Peeling off the first character of a run. */
  lemma ReduceCons(stack: seq<char>, c: char, w: seq<char>)
    ensures Reduce(stack, [c] + w) == Then(StackStep(stack, c), w)
  {
    ReduceAppend(stack, [c], w);
    ReduceSingle(stack, c);
  }

  /** An adjacent matched pair leaves the stack as it found it. */
  lemma ReducePair(stack: seq<char>, o: char, c: char)
    requires Closes(o, c)
    ensures Reduce(stack, [o, c]) == Some(stack)
  {
    assert [o, c][..1] == [o];
    ReduceSingle(stack, o);
    assert (stack + [o])[..|stack|] == stack;
  }

  /** Deleting an adjacent matched pair does not change the outcome of a run. */
  lemma ReduceCancel(stack: seq<char>, u: seq<char>, o: char, c: char, v: seq<char>)
    requires Closes(o, c)
    ensures Reduce(stack, u + [o, c] + v) == Reduce(stack, u + v)
  {
    ReduceAppend(stack, u + [o, c], v);
    ReduceAppend(stack, u, [o, c]);
    ReduceAppend(stack, u, v);
    match Reduce(stack, u)
    case None =>
    case Some(s) => ReducePair(s, o, c);
  }

  /** Characters other than brackets are ignored by the automaton. */
  lemma {:induction false} ReduceBrackets(stack: seq<char>, w: seq<char>)
    ensures Reduce(stack, w) == Reduce(stack, Brackets(w))
    decreases |w|
  {
    if w != [] {
      var w', c := w[..|w| - 1], w[|w| - 1];
      ReduceBrackets(stack, w');
      var b := Brackets(w');
      assert w == w' + [c];
      ReduceAppend(stack, w', [c]);
      if IsBracket(c) {
        assert Brackets(w) == b + [c];
        ReduceAppend(stack, b, [c]);
      } else {
        assert Brackets(w) == b + [] == b;
        match Reduce(stack, w')
        case None =>
        case Some(s) => ReduceSingle(s, c);
      }
    }
  }

  /** A word without brackets leaves every stack as it is. */
  lemma {:induction false} ReduceIgnores(stack: seq<char>, w: seq<char>)
    requires forall k :: 0 <= k < |w| ==> !IsBracket(w[k])
    ensures Reduce(stack, w) == Some(stack)
    decreases |w|
  {
    if w != [] {
      ReduceIgnores(stack, w[..|w| - 1]);
    }
  }

  /** The stack only ever holds openers. */
  lemma {:induction false} ReduceKeepsOpeners(stack: seq<char>, w: seq<char>)
    requires AllOpeners(stack)
    ensures Reduce(stack, w).Some? ==> AllOpeners(Reduce(stack, w).value)
    decreases |w|
  {
    if w != [] {
      ReduceKeepsOpeners(stack, w[..|w| - 1]);
    }
  }

  // ---------------------------------------------------------------------
  // The automaton accepts exactly the balanced words

  /** A word cut around position `i`. */
  lemma SplitAround(w: seq<char>, i: nat)
    requires i + 1 < |w|
    ensures w == w[..i] + [w[i], w[i + 1]] + w[i + 2..]
  {
  }

  /** Inserting an adjacent matched pair into a balanced word keeps it
      balanced. */
  lemma DyckInsert(u: seq<char>, o: char, c: char, v: seq<char>)
    requires Closes(o, c) && Dyck(u + v)
    ensures Dyck(u + [o, c] + v)
  {
    var x := u + [o, c] + v;
    var i := |u|;
    assert x[..i] == u && x[i + 2..] == v;
    assert x[i] == o && x[i + 1] == c;
    assert CancelsAt(x, i);
  }

  /** A balanced word leaves every stack unchanged. */
  lemma {:induction false} DyckReduces(stack: seq<char>, w: seq<char>)
    requires Dyck(w)
    ensures Reduce(stack, w) == Some(stack)
    decreases |w|
  {
    if w != [] {
      var i :| 0 <= i < |w| - 1 && CancelsAt(w, i);
      SplitAround(w, i);
      ReduceCancel(stack, w[..i], w[i], w[i + 1], w[i + 2..]);
      DyckReduces(stack, w[..i] + w[i + 2..]);
    }
  }

  lemma Associate(a: seq<char>, b: seq<char>, c: seq<char>)
    ensures a + (b + c) == (a + b) + c
  {
  }

  /** The first move of a run that ends on the empty stack. */
  lemma EmptyingFirstMove(stack: seq<char>, c: char, rest: seq<char>)
    requires IsBracket(c) && Reduce(stack, [c] + rest) == Some([])
    ensures IsOpener(c) ==> Reduce(stack + [c], rest) == Some([])
    ensures !IsOpener(c) ==>
      |stack| > 0 && Closes(stack[|stack| - 1], c) && Reduce(stack[..|stack| - 1], rest) == Some([])
  {
    ReduceCons(stack, c, rest);
  }

  /** Wrapping a matched pair around the cut between `u` and `v` keeps a
      balanced word balanced. */
  lemma CloseAround(u: seq<char>, o: char, c: char, v: seq<char>)
    requires Closes(o, c) && Dyck(u + v)
    ensures Dyck((u + [o]) + ([c] + v))
  {
    DyckInsert(u, o, c, v);
    assert (u + [o]) + ([c] + v) == u + [o, c] + v;
  }

  /** A bracket word that empties a stack of openers closes exactly those
      openers: the stack followed by the word is balanced. */
  lemma {:induction false} EmptyingIsDyck(stack: seq<char>, w: seq<char>)
    requires AllOpeners(stack) && AllBrackets(w)
    requires Reduce(stack, w) == Some([])
    ensures Dyck(stack + w)
    decreases |w|
  {
    if w == [] {
      assert stack + w == [];
    } else {
      var c, rest := w[0], w[1..];
      assert w == [c] + rest;
      EmptyingFirstMove(stack, c, rest);
      assert AllBrackets(rest) by {
        forall k | 0 <= k < |rest| ensures IsBracket(rest[k]) { assert rest[k] == w[k + 1]; }
      }
      if IsOpener(c) {
        EmptyingIsDyck(stack + [c], rest);
        Associate(stack, [c], rest);
      } else {
        var n := |stack|;
        var below, o := stack[..n - 1], stack[n - 1];
        assert AllOpeners(below) by {
          forall k | 0 <= k < |below| ensures IsOpener(below[k]) { assert below[k] == stack[k]; }
        }
        EmptyingIsDyck(below, rest);
        CloseAround(below, o, c, rest);
        assert stack == below + [o];
      }
    }
  }

  /** A bracket word accepted from the empty stack is balanced. */
  lemma AcceptedIsDyck(w: seq<char>)
    requires AllBrackets(w) && Reduce([], w) == Some([])
    ensures Dyck(w)
  {
    EmptyingIsDyck([], w);
    assert [] + w == w;
  }

  /** The automaton, started on an empty stack, ends on an empty stack
      without a fault exactly when the bracket subsequence is balanced. */
  lemma AcceptsIffDyck(w: seq<char>)
    ensures Reduce([], w) == Some([]) <==> Dyck(Brackets(w))
  {
    ReduceBrackets([], w);
    var b := Brackets(w);
    if Reduce([], w) == Some([]) {
      AcceptedIsDyck(b);
    }
    if Dyck(b) {
      DyckReduces([], b);
    }
  }

  /** The closers that close a stack of openers, innermost first. */
  function Closing(stack: seq<char>): (r: seq<char>)
    requires AllOpeners(stack)
    ensures |r| == |stack|
    decreases |stack|
  {
    if stack == [] then []
    else [CloserOf(stack[|stack| - 1])] + Closing(stack[..|stack| - 1])
  }

  lemma {:induction false} ReduceClosing(stack: seq<char>)
    requires AllOpeners(stack)
    ensures Reduce(stack, Closing(stack)) == Some([])
    decreases |stack|
  {
    if stack != [] {
      var o := stack[|stack| - 1];
      ReduceCons(stack, CloserOf(o), Closing(stack[..|stack| - 1]));
      ReduceClosing(stack[..|stack| - 1]);
    }
  }

  lemma ClosingIsClosers(stack: seq<char>)
    requires AllOpeners(stack)
    ensures AllBrackets(Closing(stack))
    decreases |stack|
  {
  }

  /** The stack after a fault-free run holds exactly the unmatched openers
      of the bracket prefix: closing them, innermost first, balances it. */
  lemma StackIsUnmatchedOpeners(w: seq<char>)
    requires Reduce([], w).Some?
    ensures AllOpeners(Reduce([], w).value)
    ensures Dyck(Brackets(w) + Closing(Reduce([], w).value))
  {
    var st := Reduce([], w).value;
    ReduceKeepsOpeners([], w);
    ReduceBrackets([], w);
    var b := Brackets(w);
    ReduceAppend([], b, Closing(st));
    ReduceClosing(st);
    ClosingIsClosers(st);
    AllBracketsConcat(b, Closing(st));
    AcceptedIsDyck(b + Closing(st));
  }

  // ---------------------------------------------------------------------
  // The reference definition is closed under the grammar rules

  lemma {:induction false} DyckAllBrackets(w: seq<char>)
    requires Dyck(w)
    ensures AllBrackets(w)
    decreases |w|
  {
    if w != [] {
      var i :| 0 <= i < |w| - 1 && CancelsAt(w, i);
      var r := w[..i] + w[i + 2..];
      DyckAllBrackets(r);
      forall k | 0 <= k < |w| ensures IsBracket(w[k]) {
        if k < i { assert w[k] == r[k]; }
        else if k > i + 1 { assert w[k] == r[k - 2]; }
      }
    }
  }

  lemma AllBracketsConcat(u: seq<char>, v: seq<char>)
    requires AllBrackets(u) && AllBrackets(v)
    ensures AllBrackets(u + v)
  {
    forall k | 0 <= k < |u + v| ensures IsBracket((u + v)[k]) {
      if k >= |u| { assert (u + v)[k] == v[k - |u|]; }
    }
  }

  /** A word that returns the stack `[o]` to itself, wrapped in `o` and its
      closer, is accepted from the empty stack. */
  lemma WrapAccepted(o: char, u: seq<char>)
    requires IsOpener(o) && Reduce([o], u) == Some([o])
    ensures Reduce([], [o] + u + [CloserOf(o)]) == Some([])
  {
    var c := CloserOf(o);
    ReduceSingle([o], c);
    assert [o][..0] == [];
    assert Reduce([o], [c]) == Some([]);
    ReduceAppend([o], u, [c]);
    assert Reduce([o], u + [c]) == Some([]);
    ReduceCons([], o, u + [c]);
    assert [] + [o] == [o];
    assert Reduce([], [o] + (u + [c])) == Some([]);
    assert [o] + u + [c] == [o] + (u + [c]);
  }

  lemma NestAccepted(o: char, u: seq<char>)
    requires IsOpener(o) && AllBrackets(u) && Reduce([o], u) == Some([o])
    ensures AllBrackets([o] + u + [CloserOf(o)])
    ensures Reduce([], [o] + u + [CloserOf(o)]) == Some([])
  {
    AllBracketsConcat([o], u);
    AllBracketsConcat([o] + u, [CloserOf(o)]);
    WrapAccepted(o, u);
  }

  /** Wrapping a balanced word in a matched pair keeps it balanced. */
  lemma DyckNest(o: char, u: seq<char>)
    requires IsOpener(o) && Dyck(u)
    ensures Dyck([o] + u + [CloserOf(o)])
  {
    DyckAllBrackets(u);
    DyckReduces([o], u);
    NestAccepted(o, u);
    AcceptedIsDyck([o] + u + [CloserOf(o)]);
  }

  /** Two words accepted from the empty stack are accepted one after the
      other. */
  lemma AcceptedConcat(u: seq<char>, v: seq<char>)
    requires Reduce([], u) == Some([]) && Reduce([], v) == Some([])
    ensures Reduce([], u + v) == Some([])
  {
    ReduceAppend([], u, v);
  }

  /** The concatenation of balanced words is balanced. */
  lemma DyckConcat(u: seq<char>, v: seq<char>)
    requires Dyck(u) && Dyck(v)
    ensures Dyck(u + v)
  {
    DyckAllBrackets(u);
    DyckAllBrackets(v);
    DyckReduces([], u);
    DyckReduces([], v);
    AcceptedConcat(u, v);
    AllBracketsConcat(u, v);
    AcceptedIsDyck(u + v);
  }
}
