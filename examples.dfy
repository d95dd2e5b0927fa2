/** Worked examples: one small payload for each kind of structural fault,
    and four of the sample URLs of the source's test list
    (src/App.jsx:173-199), with the verdicts `analyzePacket` gives them.
    Each example is stated for a payload `w` equal to the literal and is
    derived from the general lemmas rather than by evaluation. */
module Examples {
  import opened Wrappers
  import opened Normalizer
  import opened BracketAutomaton
  import opened StructuralValidator
  import opened SignatureScanner
  import opened Inspection

  /** Every term of the blocklist has at least four characters. */
  lemma PatternLengths()
    ensures |Patterns| == 8
    ensures forall j :: 0 <= j < |Patterns| ==> 4 <= |Patterns[j]| <= 6
  {
    assert Patterns[0] == "paypal" && Patterns[1] == "secure" && Patterns[2] == "login" && Patterns[3] == "bank";
    assert Patterns[4] == "select" && Patterns[5] == "union" && Patterns[6] == "script" && Patterns[7] == "admin";
  }

  /** So a payload of fewer than four characters never matches a term. */
  lemma ShortIsClean(w: string)
    requires |w| < 4
    ensures Scan(w, Patterns) == []
  {
    PatternLengths();
    ScanShort(w, Patterns);
  }

  /** The validator's run on `<a`: the push, then nothing for `a`. */
  lemma OpenerThenLetter(w: string, o: char)
    requires |w| == 2 && w[0] == o && IsOpener(o) && w[1] == 'a'
    ensures Trace(w) == PdaState([o], [PdaEntry(0, Char(o), Push, [o], true)], true)
  {
    var push := PdaEntry(0, Char(o), Push, [o], true);
    TraceStep(w, 0);
    assert w[..0] == [];
    StepPush(Initial, 0, o);
    assert [] + [o] == [o] && [] + [push] == [push];
    assert Trace(w[..1]) == PdaState([o], [push], true);
    TraceStep(w, 1);
    assert !IsOpener('a') && !IsCloser('a');
    StepIgnored(Trace(w[..1]), 1, 'a');
    assert w[..2] == w;
  }

  /** A closer with nothing open: one invalid entry with an empty snapshot. */
  lemma UnexpectedCloser(w: string)
    requires w == ")"
    ensures Inspect(w).pdaLogs == [PdaEntry(0, Char(')'), Unexpected, [], false)]
    ensures Inspect(w).dfaLogs == []
    ensures Inspect(w).decision == Blocked && Inspect(w).reason == "Malformed/Injection"
  {
    TraceStep(w, 0);
    assert w[..0] == [] && w[..1] == w;
    StepUnexpected(Initial, 0, ')');
    ShortIsClean(w);
  }

  lemma MismatchTrace(w: string)
    requires w == "<a}"
    ensures Validate(w) ==
      PdaState(['<'], [PdaEntry(0, Char('<'), Push, ['<'], true), PdaEntry(2, Char('}'), Mismatch, ['<'], false)], false)
  {
    OpenerThenLetter(w[..2], '<');
    TraceStep(w, 2);
    StepMismatch(Trace(w[..2]), 2, '}');
    assert w[..3] == w;
  }

  /** A closer of the wrong kind: the push is logged, then the mismatch
      together with the stack it could not close. */
  lemma MismatchedCloser(w: string)
    requires w == "<a}"
    ensures Inspect(w).pdaLogs ==
      [PdaEntry(0, Char('<'), Push, ['<'], true), PdaEntry(2, Char('}'), Mismatch, ['<'], false)]
    ensures Inspect(w).dfaLogs == [] && Inspect(w).finalStack == ['<']
    ensures Inspect(w).decision == Blocked && Inspect(w).reason == "Malformed/Injection"
  {
    MismatchTrace(w);
    ShortIsClean(w);
  }

  lemma TruncatedTrace(w: string)
    requires w == "<a"
    ensures Validate(w) ==
      PdaState(['<'], [PdaEntry(0, Char('<'), Push, ['<'], true), PdaEntry(2, Eof, Truncated, ['<'], false)], false)
  {
    OpenerThenLetter(w, '<');
  }

  /** An opener left open: the end-of-input entry sits at index `|w|`. */
  lemma TruncatedRequest(w: string)
    requires w == "<a"
    ensures Inspect(w).pdaLogs ==
      [PdaEntry(0, Char('<'), Push, ['<'], true), PdaEntry(2, Eof, Truncated, ['<'], false)]
    ensures Inspect(w).dfaLogs == [] && Inspect(w).finalStack == ['<']
    ensures Inspect(w).decision == Blocked && Inspect(w).reason == "Malformed/Injection"
  {
    TruncatedTrace(w);
    ShortIsClean(w);
  }

  lemma CleanTrace(w: string)
    requires w == "(a)"
    ensures Validate(w) ==
      PdaState([], [PdaEntry(0, Char('('), Push, ['('], true), PdaEntry(2, Char(')'), Pop, [], true)], true)
  {
    OpenerThenLetter(w[..2], '(');
    TraceStep(w, 2);
    StepPop(Trace(w[..2]), 2, ')');
    assert w[..3] == w;
  }

  /** A balanced payload with no term in it is allowed. */
  lemma CleanPayload(w: string)
    requires w == "(a)"
    ensures Inspect(w).pdaLogs ==
      [PdaEntry(0, Char('('), Push, ['('], true), PdaEntry(2, Char(')'), Pop, [], true)]
    ensures Inspect(w).structureValid && Inspect(w).finalStack == [] && Inspect(w).dfaLogs == []
    ensures Inspect(w).decision == Allowed && Inspect(w).reason == "Clean"
  {
    CleanTrace(w);
    ShortIsClean(w);
  }

  /** Whether the normalised text ends with a term is decided by its last
      six raw characters, since no term is longer. */
  lemma TailDecides(a: string, tail: string, t: string)
    requires |tail| == 6 && |t| <= 6
    ensures EndsWith(NormalizeSeq(a + tail), t) <==> EndsWith(NormalizeSeq(tail), t)
  {
    NormalizeSeqAppend(a, tail);
    NormalizeSeqPointwise(a);
    NormalizeSeqPointwise(tail);
    var n := NormalizeSeq(a + tail);
    assert n[|n| - 6..] == NormalizeSeq(tail);
    EndsWithSuffix(n, NormalizeSeq(tail), t);
  }

  /** So if `tail` normalised ends with the `k`-th term of a blocklist
      whose terms have at most six characters, and with none before it, the
      scanner reports that term at the end of `tail`, with its raw snippet. */
  lemma TermEndsAt(a: string, tail: string, terms: seq<string>, k: nat)
    requires |tail| == 6 && k < |terms| && forall j :: 0 <= j < |terms| ==> |terms[j]| <= 6
    requires EndsWith(NormalizeSeq(tail), terms[k])
    requires forall j :: 0 <= j < k ==> !EndsWith(NormalizeSeq(tail), terms[j])
    ensures ScanAt(a + tail, terms) == Some(Match(|a| + 5, terms[k], tail[6 - |terms[k]|..]))
  {
    var p := a + tail;
    TailDecides(a, tail, terms[k]);
    forall j | 0 <= j < k ensures !EndsWith(NormalizeSeq(p), terms[j]) {
      TailDecides(a, tail, terms[j]);
    }
    FirstMatchIsFirst(NormalizeSeq(p), terms, k);
    assert p[|p| - |terms[k]|..] == tail[6 - |terms[k]|..];
  }

  /** And that report is logged, whatever follows. */
  lemma TermAt(a: string, tail: string, b: string, terms: seq<string>, k: nat)
    requires |tail| == 6 && k < |terms| && forall j :: 0 <= j < |terms| ==> |terms[j]| <= 6
    requires EndsWith(NormalizeSeq(tail), terms[k])
    requires forall j :: 0 <= j < k ==> !EndsWith(NormalizeSeq(tail), terms[j])
    ensures Match(|a| + 5, terms[k], tail[6 - |terms[k]|..]) in Scan(a + tail + b, terms)
  {
    TermEndsAt(a, tail, terms, k);
    var w := a + tail + b;
    assert w[..|a| + 6] == a + tail;
    ScanLogsVerdict(w, |a| + 5, terms);
  }

  /** Likewise, if `tail` normalised ends with no term, nothing is reported
      at its end. */
  lemma NoTermAt(a: string, tail: string, terms: seq<string>)
    requires |tail| == 6 && forall j :: 0 <= j < |terms| ==> |terms[j]| <= 6
    requires forall j :: 0 <= j < |terms| ==> !EndsWith(NormalizeSeq(tail), terms[j])
    ensures ScanAt(a + tail, terms) == None
  {
    forall j | 0 <= j < |terms| ensures !EndsWith(NormalizeSeq(a + tail), terms[j]) {
      TailDecides(a, tail, terms[j]);
    }
  }

  /** Text without brackets. */
  ghost predicate Plain(u: string) {
    forall k :: 0 <= k < |u| ==> !IsBracket(u[k])
  }

  /** Reading one more character is one more round. */
  lemma TraceSnoc(u: string, c: char)
    ensures Trace(u + [c]) == Step(Trace(u), |u|, c)
  {
    assert (u + [c])[..|u|] == u;
  }

  /** Plain text after a prefix changes nothing. */
  lemma {:induction false} TracePlain(u: string, s: string)
    requires Plain(s)
    ensures Trace(u + s) == Trace(u)
    decreases |s|
  {
    if s == [] {
      assert u + s == u;
    } else {
      var s', x := s[..|s| - 1], s[|s| - 1];
      assert Plain(s') by {
        forall k | 0 <= k < |s'| ensures !IsBracket(s'[k]) { assert s'[k] == s[k]; }
      }
      assert u + s == (u + s') + [x];
      TraceSnoc(u + s', x);
      StepIgnored(Trace(u + s'), |u + s'|, x);
      TracePlain(u, s');
    }
  }

  lemma StepOpenEmpty(s: PdaState, i: nat, o: char, logs: seq<PdaEntry>)
    requires s == PdaState([], logs, true) && IsOpener(o)
    ensures Step(s, i, o) == PdaState([o], logs + [PdaEntry(i, Char(o), Push, [o], true)], true)
  {
    assert s.stack + [o] == [o];
    StepPush(s, i, o);
  }

  /** An opener read from a valid state with an empty stack is pushed and
      logged. */
  lemma OpenTrace(u: string, o: char, logs: seq<PdaEntry>)
    requires Trace(u) == PdaState([], logs, true) && IsOpener(o)
    ensures Trace(u + [o]) == PdaState([o], logs + [PdaEntry(|u|, Char(o), Push, [o], true)], true)
  {
    StepOpenEmpty(Trace(u), |u|, o, logs);
    TraceSnoc(u, o);
  }

  lemma StepCloseLast(s: PdaState, i: nat, o: char, c: char, logs: seq<PdaEntry>)
    requires s == PdaState([o], logs, true) && Closes(o, c)
    ensures Step(s, i, c) == PdaState([], logs + [PdaEntry(i, Char(c), Pop, [], true)], true)
  {
    assert s.stack[|s.stack| - 1] == o && s.stack[..|s.stack| - 1] == [];
    assert IsCloser(c);
    StepPop(s, i, c);
  }

  /** The closer of the only open opener is popped and logged. */
  lemma CloseTrace(u: string, c: char, o: char, logs: seq<PdaEntry>)
    requires Trace(u) == PdaState([o], logs, true) && Closes(o, c)
    ensures Trace(u + [c]) == PdaState([], logs + [PdaEntry(|u|, Char(c), Pop, [], true)], true)
  {
    StepCloseLast(Trace(u), |u|, o, c, logs);
    TraceSnoc(u, c);
  }

  /** An opener followed by plain text: one Push entry. */
  lemma OpenPlainTrace(u: string, o: char, m: string, logs: seq<PdaEntry>)
    requires Trace(u) == PdaState([], logs, true)
    requires IsOpener(o) && Plain(m)
    ensures Trace(u + [o] + m) == PdaState([o], logs + [PdaEntry(|u|, Char(o), Push, [o], true)], true)
  {
    OpenTrace(u, o, logs);
    TracePlain(u + [o], m);
  }

  /** A bracket pair around plain text, read from a valid state with an
      empty stack: a Push at the opener, a Pop at the closer, and the stack
      empty again. */
  lemma PairTrace(u: string, o: char, m: string, c: char, logs: seq<PdaEntry>)
    requires Trace(u) == PdaState([], logs, true)
    requires IsOpener(o) && Plain(m) && Closes(o, c)
    ensures Trace(u + [o] + m + [c]) ==
      PdaState([], logs + [PdaEntry(|u|, Char(o), Push, [o], true)] + [PdaEntry(|u + [o] + m|, Char(c), Pop, [], true)], true)
  {
    OpenPlainTrace(u, o, m, logs);
    CloseTrace(u + [o] + m, c, o, logs + [PdaEntry(|u|, Char(o), Push, [o], true)]);
  }

  /** Plain text is preserved by concatenation. */
  lemma PlainConcat(a: string, b: string)
    requires Plain(a) && Plain(b)
    ensures Plain(a + b)
  {
    forall k | 0 <= k < |a + b| ensures !IsBracket((a + b)[k]) {
      if k < |a| {
        assert (a + b)[k] == a[k];
      } else {
        assert (a + b)[k] == b[k - |a|];
      }
    }
  }

  lemma LeetTails()
    ensures NormalizeSeq("P4YPAL") == "paypal"
    ensures NormalizeSeq("S3CUR3") == "secure"
    ensures NormalizeSeq("/l0g1n") == "/logln"
  {
    NormalizeSeqPointwise("P4YPAL");
    NormalizeSeqPointwise("S3CUR3");
    NormalizeSeqPointwise("/l0g1n");
    assert Normalize('P') == 'p' && Normalize('4') == 'a' && Normalize('Y') == 'y';
    assert Normalize('A') == 'a' && Normalize('L') == 'l';
    assert Normalize('S') == 's' && Normalize('3') == 'e' && Normalize('C') == 'c';
    assert Normalize('U') == 'u' && Normalize('R') == 'r';
    assert Normalize('/') == '/' && Normalize('l') == 'l' && Normalize('0') == 'o';
    assert Normalize('g') == 'g' && Normalize('1') == 'l' && Normalize('n') == 'n';
  }

  lemma LeetPlain(w: string)
    requires w == "http://www.P4YPAL-S3CUR3.com/l0g1n"
    ensures Plain(w)
  {
    assert Plain("http://www.P4YPAL-") && Plain("S3CUR3.com/l0g1n");
    PlainConcat("http://www.P4YPAL-", "S3CUR3.com/l0g1n");
  }

  lemma LeetPaypalPieces()
    ensures Match(16, "paypal", "P4YPAL") in Scan("http://www." + "P4YPAL" + "-S3CUR3.com/l0g1n", Patterns)
  {
    LeetTails();
    PatternLengths();
    assert Patterns[0] == "paypal";
    TermAt("http://www.", "P4YPAL", "-S3CUR3.com/l0g1n", Patterns, 0);
  }

  lemma LeetSecurePieces()
    ensures Match(23, "secure", "S3CUR3") in Scan("http://www.P4YPAL-" + "S3CUR3" + ".com/l0g1n", Patterns)
  {
    LeetTails();
    PatternLengths();
    assert Patterns[0] == "paypal" && Patterns[1] == "secure";
    TermAt("http://www.P4YPAL-", "S3CUR3", ".com/l0g1n", Patterns, 1);
  }

  lemma LeetLoginPieces()
    ensures ScanAt("http://www.P4YPAL-S3CUR3.com" + "/l0g1n", Patterns) == None
  {
    LeetTails();
    PatternLengths();
    assert Patterns[0] == "paypal" && Patterns[1] == "secure" && Patterns[2] == "login" && Patterns[3] == "bank";
    assert Patterns[4] == "select" && Patterns[5] == "union" && Patterns[6] == "script" && Patterns[7] == "admin";
    NoTermAt("http://www.P4YPAL-S3CUR3.com", "/l0g1n", Patterns);
  }

  lemma LeetSplitPaypal(w: string)
    requires w == "http://www.P4YPAL-S3CUR3.com/l0g1n"
    ensures w == "http://www." + "P4YPAL" + "-S3CUR3.com/l0g1n"
  {
  }

  lemma LeetSplitSecure(w: string)
    requires w == "http://www.P4YPAL-S3CUR3.com/l0g1n"
    ensures w == "http://www.P4YPAL-" + "S3CUR3" + ".com/l0g1n"
  {
  }

  lemma LeetSplitLogin(w: string)
    requires w == "http://www.P4YPAL-S3CUR3.com/l0g1n"
    ensures w == "http://www.P4YPAL-S3CUR3.com" + "/l0g1n"
  {
  }

  /** The leet-speak sample URL_01: `P4YPAL` is reported as `paypal` and
      `S3CUR3` as `secure`, each with its raw snippet. `l0g1n` is not
      reported: the table maps `1` to `l`, so it normalises to `logln`.
      There is no bracket, so the structural log stays empty. */
  lemma LeetSpeakPhishing(w: string)
    requires w == "http://www.P4YPAL-S3CUR3.com/l0g1n"
    ensures Match(16, "paypal", "P4YPAL") in Inspect(w).dfaLogs
    ensures Match(23, "secure", "S3CUR3") in Inspect(w).dfaLogs
    ensures ScanAt(w, Patterns) == None
    ensures Inspect(w).structureValid && Inspect(w).pdaLogs == []
    ensures Inspect(w).decision == Blocked && Inspect(w).reason == "Phishing Signature"
  {
    LeetPlain(w);
    TraceIgnores(w);
    LeetSplitPaypal(w);
    LeetPaypalPieces();
    LeetSplitSecure(w);
    LeetSecurePieces();
    LeetSplitLogin(w);
    LeetLoginPieces();
  }

  lemma SelectTail()
    ensures NormalizeSeq("SELECT") == "select"
  {
    NormalizeSeqPointwise("SELECT");
    assert Normalize('S') == 's' && Normalize('E') == 'e' && Normalize('L') == 'l';
    assert Normalize('C') == 'c' && Normalize('T') == 't';
  }

  lemma BalancedSqlPlain()
    ensures Plain("http://site.com/search?q=") && Plain("SELECT * FROM users")
  {
  }

  lemma BalancedSqlSelect()
    ensures Match(31, "select", "SELECT") in Scan("http://site.com/search?q=(" + "SELECT" + " * FROM users)", Patterns)
  {
    SelectTail();
    PatternLengths();
    assert Patterns[0] == "paypal" && Patterns[1] == "secure" && Patterns[2] == "login";
    assert Patterns[3] == "bank" && Patterns[4] == "select";
    TermAt("http://site.com/search?q=(", "SELECT", " * FROM users)", Patterns, 4);
  }

  lemma BalancedSqlSplitPair(w: string)
    requires w == "http://site.com/search?q=(SELECT * FROM users)"
    ensures w == "http://site.com/search?q=" + ['('] + "SELECT * FROM users" + [')']
  {
  }

  lemma BalancedSqlSplitSelect(w: string)
    requires w == "http://site.com/search?q=(SELECT * FROM users)"
    ensures w == "http://site.com/search?q=(" + "SELECT" + " * FROM users)"
  {
  }

  /** The balanced SQL sample URL_02: the brackets are fine, `SELECT` is
      not. */
  lemma BalancedSqlStructure(w: string)
    requires w == "http://site.com/search?q=(SELECT * FROM users)"
    ensures Validate(w) ==
      PdaState([], [PdaEntry(25, Char('('), Push, ['('], true), PdaEntry(45, Char(')'), Pop, [], true)], true)
  {
    BalancedSqlPlain();
    TraceIgnores("http://site.com/search?q=");
    PairTrace("http://site.com/search?q=", '(', "SELECT * FROM users", ')', []);
    BalancedSqlSplitPair(w);
  }

  lemma BalancedSqlInjection(w: string)
    requires w == "http://site.com/search?q=(SELECT * FROM users)"
    ensures Inspect(w).pdaLogs ==
      [PdaEntry(25, Char('('), Push, ['('], true), PdaEntry(45, Char(')'), Pop, [], true)]
    ensures Inspect(w).structureValid && Inspect(w).finalStack == []
    ensures Match(31, "select", "SELECT") in Inspect(w).dfaLogs
    ensures Inspect(w).decision == Blocked && Inspect(w).reason == "Phishing Signature"
  {
    BalancedSqlStructure(w);
    BalancedSqlSplitSelect(w);
    BalancedSqlSelect();
  }

  lemma BrokenSqlStructure(w: string)
    requires w == "http://site.com/id=5) OR 1=1"
    ensures Validate(w) == PdaState([], [PdaEntry(20, Char(')'), Unexpected, [], false)], false)
  {
    var pre := "http://site.com/id=5";
    assert w[..20] == pre && w[20] == ')';
    TraceIgnores(pre);
    TraceStep(w, 20);
    StepUnexpected(Initial, 20, ')');
    assert [] + [PdaEntry(20, Char(')'), Unexpected, [], false)] == [PdaEntry(20, Char(')'), Unexpected, [], false)];
    FrozenAfterFault(w, 21);
  }

  /** The broken SQL sample URL_03: the closer at index 20 has nothing to
      close, and the validator stops there. */
  lemma BrokenSqlInjection(w: string)
    requires w == "http://site.com/id=5) OR 1=1"
    ensures Inspect(w).pdaLogs == [PdaEntry(20, Char(')'), Unexpected, [], false)]
    ensures !Inspect(w).structureValid
    ensures Inspect(w).decision == Blocked && Inspect(w).reason == "Malformed/Injection"
  {
    BrokenSqlStructure(w);
  }

  lemma ScriptTail()
    ensures NormalizeSeq("script") == "script"
    ensures forall j :: 0 <= j < 6 ==> !EndsWith("script", Patterns[j])
    ensures EndsWith("script", Patterns[6])
  {
    NormalizeSeqPointwise("script");
    assert Patterns[0] == "paypal" && Patterns[1] == "secure" && Patterns[2] == "login";
    assert Patterns[3] == "bank" && Patterns[4] == "select" && Patterns[5] == "union" && Patterns[6] == "script";
  }

  lemma ScriptPlain()
    ensures Plain("http://site.com/comment?msg=") && Plain("script") && Plain("alert")
    ensures Plain("1") && Plain("/script")
  {
  }

  lemma ScriptTags()
    ensures Match(34, "script", "script") in
      Scan("http://site.com/comment?msg=<" + "script" + ">alert(1)</script>", Patterns)
    ensures Match(51, "script", "script") in
      Scan("http://site.com/comment?msg=<script>alert(1)</" + "script" + ">", Patterns)
  {
    ScriptTail();
    PatternLengths();
    TermAt("http://site.com/comment?msg=<", "script", ">alert(1)</script>", Patterns, 6);
    TermAt("http://site.com/comment?msg=<script>alert(1)</", "script", ">", Patterns, 6);
  }

  lemma ScriptSplitPairs(w: string)
    requires w == "http://site.com/comment?msg=<script>alert(1)</script>"
    ensures w == "http://site.com/comment?msg=" + ['<'] + "script" + ['>'] + "alert" + ['('] + "1" + [')']
      + ['<'] + "/script" + ['>']
  {
  }

  lemma ScriptSplitOpening(w: string)
    requires w == "http://site.com/comment?msg=<script>alert(1)</script>"
    ensures w == "http://site.com/comment?msg=<" + "script" + ">alert(1)</script>"
  {
  }

  lemma ScriptSplitClosing(w: string)
    requires w == "http://site.com/comment?msg=<script>alert(1)</script>"
    ensures w == "http://site.com/comment?msg=<script>alert(1)</" + "script" + ">"
  {
  }

  lemma ScriptStructure(w: string)
    requires w == "http://site.com/comment?msg=<script>alert(1)</script>"
    ensures Validate(w) == PdaState([], [
      PdaEntry(28, Char('<'), Push, ['<'], true), PdaEntry(35, Char('>'), Pop, [], true),
      PdaEntry(41, Char('('), Push, ['('], true), PdaEntry(43, Char(')'), Pop, [], true),
      PdaEntry(44, Char('<'), Push, ['<'], true), PdaEntry(52, Char('>'), Pop, [], true)], true)
  {
    var s0 := "http://site.com/comment?msg=";
    var p1 := s0 + ['<'] + "script" + ['>'];
    var p2 := p1 + "alert" + ['('] + "1" + [')'];
    ScriptPlain();
    TraceIgnores(s0);
    PairTrace(s0, '<', "script", '>', []);
    TracePlain(p1, "alert");
    PairTrace(p1 + "alert", '(', "1", ')', Trace(p1).logs);
    PairTrace(p2, '<', "/script", '>', Trace(p2).logs);
    ScriptSplitPairs(w);
  }

  /** The script sample URL_04: every bracket is matched, and `script` is
      reported at the end of each tag name. */
  lemma ScriptInjection(w: string)
    requires w == "http://site.com/comment?msg=<script>alert(1)</script>"
    ensures Inspect(w).pdaLogs == [
      PdaEntry(28, Char('<'), Push, ['<'], true), PdaEntry(35, Char('>'), Pop, [], true),
      PdaEntry(41, Char('('), Push, ['('], true), PdaEntry(43, Char(')'), Pop, [], true),
      PdaEntry(44, Char('<'), Push, ['<'], true), PdaEntry(52, Char('>'), Pop, [], true)]
    ensures Inspect(w).structureValid && Inspect(w).finalStack == []
    ensures Match(34, "script", "script") in Inspect(w).dfaLogs
    ensures Match(51, "script", "script") in Inspect(w).dfaLogs
    ensures Inspect(w).decision == Blocked && Inspect(w).reason == "Phishing Signature"
  {
    ScriptStructure(w);
    ScriptSplitOpening(w);
    ScriptSplitClosing(w);
    ScriptTags();
  }
}
