/** `analyzePacket` as a whole (src/App.jsx:17-161): one pass over the
    payload that drives the structural validator and the signature scanner
    side by side, the end-of-input check, and the decision policy. */
module Inspection {
  import opened Wrappers
  import opened Normalizer
  import opened BracketAutomaton
  import opened StructuralValidator
  import opened SignatureScanner

  datatype Decision = Allowed | Blocked

  datatype Verdict = Verdict(decision: Decision, reason: string)

  /** The decision policy, structural faults first. */
  function Decide(structureValid: bool, malwareFound: bool): (v: Verdict)
    ensures v.decision == Allowed <==> structureValid && !malwareFound
    ensures v.decision == Allowed <==> v.reason == "Clean"
    ensures !structureValid ==> v.reason == "Malformed/Injection"
    ensures structureValid && malwareFound ==> v.reason == "Phishing Signature"
  {
    if !structureValid then Verdict(Blocked, "Malformed/Injection")
    else if malwareFound then Verdict(Blocked, "Phishing Signature")
    else Verdict(Allowed, "Clean")
  }

  /** Everything `analyzePacket` returns. */
  datatype Analysis = Analysis(
    content: string,
    pdaLogs: seq<PdaEntry>,
    dfaLogs: seq<Match>,
    structureValid: bool,
    malwareFound: bool,
    finalStack: seq<char>,
    decision: Decision,
    reason: string)

  /** The result of inspecting `content`, as a function of the payload. */
  function Inspect(content: string): (r: Analysis)
    ensures r.content == content
    ensures r.malwareFound <==> r.dfaLogs != []
    ensures r.decision == Allowed <==> r.structureValid && !r.malwareFound
    ensures r.structureValid ==> r.finalStack == []
  {
    var pda := Validate(content);
    var dfa := Scan(content, Patterns);
    var malwareFound := dfa != [];
    var v := Decide(pda.valid, malwareFound);
    Analysis(content, pda.logs, dfa, pda.valid, malwareFound, pda.stack, v.decision, v.reason)
  }

  /** A signature is found exactly when some blocklist term is completed
      at some position of the payload. */
  lemma InspectMalware(content: string)
    ensures Inspect(content).malwareFound <==>
      exists i :: 0 <= i < |content| && CompletesAt(content, i, Patterns)
  {
    var logs := Scan(content, Patterns);
    ScanComplete(content, Patterns);
    ScanOnlyCompletions(content, Patterns);
    if logs != [] {
      assert logs[0].index < |content| && CompletesAt(content, logs[0].index, Patterns);
    }
    if exists i :: 0 <= i < |content| && CompletesAt(content, i, Patterns) {
      var i :| 0 <= i < |content| && CompletesAt(content, i, Patterns);
      assert LoggedAt(logs, i);
    }
  }

  /** End to end: a payload is allowed exactly when its brackets are
      balanced and no blocklist term is completed anywhere in it; a
      structural fault is reported in preference to a signature. */
  lemma InspectDecision(content: string)
    ensures Inspect(content).decision == Allowed <==>
      Dyck(Brackets(content)) && forall i :: 0 <= i < |content| ==> !CompletesAt(content, i, Patterns)
    ensures Inspect(content).reason == "Malformed/Injection" <==> !Dyck(Brackets(content))
    ensures Inspect(content).reason == "Phishing Signature" <==>
      Dyck(Brackets(content)) && exists i :: 0 <= i < |content| && CompletesAt(content, i, Patterns)
  {
    ValidateIffDyck(content);
    InspectMalware(content);
  }

  /** The single pass of `analyzePacket`. */
  method AnalyzePacket(content: string) returns (r: Analysis)
    ensures r == Inspect(content)
    ensures r.structureValid <==> Dyck(Brackets(content))
    ensures r.structureValid ==> r.finalStack == []
    ensures r.malwareFound <==> r.dfaLogs != []
    ensures r.decision == Allowed <==> r.structureValid && !r.malwareFound
  {
    var stack: seq<char> := [];
    var structureValid := true;
    var pdaLogs: seq<PdaEntry> := [];
    var dfaLogs: seq<Match> := [];
    var malwareFound := false;

    for i := 0 to |content|
      invariant Trace(content[..i]) == PdaState(stack, pdaLogs, structureValid)
      invariant dfaLogs == Scan(content[..i], Patterns)
      invariant malwareFound <==> dfaLogs != []
    {
      var rawChar := content[i];
      TraceStep(content, i);
      stack, structureValid, pdaLogs := ValidatorRound(stack, structureValid, pdaLogs, i, rawChar);
      assert Trace(content[..i + 1]) == PdaState(stack, pdaLogs, structureValid);

      var m := MatchAt(content, i);
      ScanStep(content, i, Patterns);
      if m.Some? {
        dfaLogs := dfaLogs + [m.value];
        malwareFound := true;
      }
    }
    assert content[..|content|] == content;
    assert Trace(content) == PdaState(stack, pdaLogs, structureValid);
    assert dfaLogs == Scan(content, Patterns);

    if structureValid && |stack| > 0 {
      pdaLogs := pdaLogs + [PdaEntry(|content|, Eof, Truncated, stack, false)];
      structureValid := false;
    }
    assert Validate(content) == PdaState(stack, pdaLogs, structureValid);

    var decision, reason;
    if !structureValid {
      decision, reason := Blocked, "Malformed/Injection";
    } else if malwareFound {
      decision, reason := Blocked, "Phishing Signature";
    } else {
      decision, reason := Allowed, "Clean";
    }

    assert Verdict(decision, reason) == Decide(structureValid, malwareFound);
    r := Analysis(content, pdaLogs, dfaLogs, structureValid, malwareFound, stack, decision, reason);
    ValidateIffDyck(content);
  }
}
