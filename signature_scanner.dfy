/** The signature scanner of `analyzePacket` (src/App.jsx:38-49, 105-123):
    at every position the normalised prefix is tested against the blocklist
    in table order, and the first term it ends with is logged together with
    the raw characters that spell it. The specification and its properties
    are stated for an arbitrary blocklist `terms`; `Patterns` is the one the
    source ships. */
module SignatureScanner {
  import opened Wrappers
  import opened Normalizer

  /** The blocklist, in the order in which it is tested. */
  const Patterns: seq<string> :=
    ["paypal", "secure", "login", "bank", "select", "union", "script", "admin"]

  /** `s.endsWith(p)`. */
  predicate EndsWith(s: string, p: string)
    ensures EndsWith(s, p) ==> |p| <= |s| && forall k :: 0 <= k < |p| ==> s[|s| - |p| + k] == p[k]
  {
    |p| <= |s| && s[|s| - |p|..] == p
  }

  /** Whether `s` ends with a term no longer than its suffix `u` is decided
      by `u` alone. */
  lemma EndsWithSuffix(s: string, u: string, t: string)
    requires |u| <= |s| && u == s[|s| - |u|..] && |t| <= |u|
    ensures EndsWith(s, t) <==> EndsWith(u, t)
  {
    assert u[|u| - |t|..] == s[|s| - |t|..];
  }

  /** The first table position whose term `s` ends with. */
  function FirstMatch(s: string, terms: seq<string>): (r: Option<nat>)
    ensures r.Some? ==> r.value < |terms| && EndsWith(s, terms[r.value])
    ensures r.Some? ==> forall j :: 0 <= j < r.value ==> !EndsWith(s, terms[j])
    ensures r.None? <==> forall j :: 0 <= j < |terms| ==> !EndsWith(s, terms[j])
    decreases |terms|
  {
    if terms == [] then None
    else if EndsWith(s, terms[0]) then Some(0)
    else
      match FirstMatch(s, terms[1..])
      case None => None
      case Some(j) => Some(j + 1)
  }

  /** `FirstMatch` finds the first matching table position and no other. */
  lemma {:induction false} FirstMatchIsFirst(s: string, terms: seq<string>, k: nat)
    requires k < |terms| && EndsWith(s, terms[k])
    requires forall j :: 0 <= j < k ==> !EndsWith(s, terms[j])
    ensures FirstMatch(s, terms) == Some(k)
    decreases |terms|
  {
    if k > 0 {
      assert !EndsWith(s, terms[0]);
      forall j | 0 <= j < k - 1 ensures !EndsWith(s, terms[1..][j]) {
        assert terms[1..][j] == terms[j + 1];
      }
      FirstMatchIsFirst(s, terms[1..], k - 1);
    }
  }

  /** A signature log entry: position, matched term and the raw snippet. */
  datatype Match = Match(index: nat, pattern: string, snippet: string)

  /** The scanner's verdict on the position that ends prefix `w`. */
  function ScanAt(w: string, terms: seq<string>): (r: Option<Match>)
    requires |w| > 0
    ensures r.Some? ==> r.value.index == |w| - 1 && r.value.pattern in terms
    ensures r.Some? ==> EndsWith(NormalizeSeq(w), r.value.pattern) && EndsWith(w, r.value.snippet)
    ensures r.Some? ==> |r.value.snippet| == |r.value.pattern|
    ensures r.None? <==> forall j :: 0 <= j < |terms| ==> !EndsWith(NormalizeSeq(w), terms[j])
  {
    var normalized := NormalizeSeq(w);
    match FirstMatch(normalized, terms)
    case None => None
    case Some(j) =>
      var p := terms[j];
      Some(Match(|w| - 1, p, w[|w| - |p|..]))
  }

  /** The signature log after the main loop has consumed the prefix `w`. */
  function Scan(w: string, terms: seq<string>): (r: seq<Match>)
    ensures |r| <= |w|
    decreases |w|
  {
    if w == [] then []
    else
      Scan(w[..|w| - 1], terms) +
      (match ScanAt(w, terms) case None => [] case Some(m) => [m])
  }

  /** Some blocklist term is completed at position `i` of `content`. */
  ghost predicate CompletesAt(content: string, i: nat, terms: seq<string>)
    requires i < |content|
  {
    exists j :: 0 <= j < |terms| && EndsWith(NormalizeSeq(content[..i + 1]), terms[j])
  }

  /** `m` is the correct verdict on the prefix `p`, whose last position is
      `m.index`: the normalised prefix ends with `m.pattern`, a table term
      with no earlier term matching there, and the snippet is the raw text
      of the match (the last `|m.pattern|` characters of `p`), which
      normalises to exactly the term. */
  ghost predicate Reports(p: string, m: Match, terms: seq<string>) {
    m.index + 1 == |p| &&
    var normalized := NormalizeSeq(p);
    (exists j :: 0 <= j < |terms| && m.pattern == terms[j] &&
       forall j' :: 0 <= j' < j ==> !EndsWith(normalized, terms[j'])) &&
    EndsWith(normalized, m.pattern) &&
    m.snippet == p[|p| - |m.pattern|..] &&
    NormalizeSeq(m.snippet) == m.pattern
  }

  /** `m` is a correct report about `content`: the correct verdict on the
      prefix ending at `m.index`. */
  ghost predicate Sound(content: string, m: Match, terms: seq<string>) {
    m.index < |content| && Reports(content[..m.index + 1], m, terms)
  }

  lemma SoundExtend(w: string, n: nat, m: Match, terms: seq<string>)
    requires n <= |w| && Sound(w[..n], m, terms)
    ensures Sound(w, m, terms)
  {
    assert w[..n][..m.index + 1] == w[..m.index + 1];
  }

  /** The verdict at one position, when there is one, is the correct
      verdict on the prefix ending there. */
  lemma ScanAtSound(w: string, terms: seq<string>)
    requires |w| > 0
    ensures ScanAt(w, terms).Some? ==> Reports(w, ScanAt(w, terms).value, terms)
    ensures ScanAt(w, terms).Some? ==> Sound(w, ScanAt(w, terms).value, terms)
  {
    if ScanAt(w, terms).Some? {
      var j := FirstMatch(NormalizeSeq(w), terms).value;
      var p := terms[j];
      var a := |w| - |p|;
      var m := ScanAt(w, terms).value;
      assert m == Match(|w| - 1, p, w[a..]);
      NormalizeSeqSlice(w, a, |w|);
      assert w[a..|w|] == w[a..];
      assert Reports(w, m, terms);
      assert w[..|w|] == w;
    }
  }

  /** There is a verdict at a position exactly when some term is completed
      there. */
  lemma ScanAtCompletes(w: string, terms: seq<string>)
    requires |w| > 0
    ensures ScanAt(w, terms).Some? <==> CompletesAt(w, |w| - 1, terms)
  {
    assert w[..|w|] == w;
  }

  /** Entries made before the last position stay as they were, and the last
      position adds at most one entry, its verdict. */
  lemma ScanPrefix(w: string, terms: seq<string>)
    requires w != []
    ensures Scan(w[..|w| - 1], terms) <= Scan(w, terms)
    ensures |Scan(w, terms)| <= |Scan(w[..|w| - 1], terms)| + 1
    ensures |Scan(w, terms)| == |Scan(w[..|w| - 1], terms)| + 1 ==> Scan(w, terms)[|Scan(w, terms)| - 1] == ScanAt(w, terms).value
    ensures ScanAt(w, terms).Some? <==> |Scan(w, terms)| == |Scan(w[..|w| - 1], terms)| + 1
  {
  }

  lemma {:induction false} ScanEntrySound(w: string, k: nat, terms: seq<string>)
    requires k < |Scan(w, terms)|
    ensures Sound(w, Scan(w, terms)[k], terms)
    decreases |w|
  {
    var w' := w[..|w| - 1];
    ScanPrefix(w, terms);
    if k < |Scan(w', terms)| {
      var m := Scan(w', terms)[k];
      ScanEntrySound(w', k, terms);
      SoundExtend(w, |w| - 1, m, terms);
      assert Scan(w, terms)[k] == m;
    } else {
      var m := ScanAt(w, terms).value;
      ScanAtSound(w, terms);
      assert Scan(w, terms)[k] == m;
    }
  }

  /** Every entry of the signature log is a sound report. */
  lemma ScanSound(w: string, terms: seq<string>)
    ensures forall k :: 0 <= k < |Scan(w, terms)| ==> Sound(w, Scan(w, terms)[k], terms)
  {
    forall k | 0 <= k < |Scan(w, terms)| ensures Sound(w, Scan(w, terms)[k], terms) {
      ScanEntrySound(w, k, terms);
    }
  }

  /** The positions of the signature log strictly increase, so there is at
      most one entry per position, in left-to-right order. */
  lemma {:induction false} ScanIncreasing(w: string, terms: seq<string>)
    ensures forall k :: 0 <= k < |Scan(w, terms)| ==> Scan(w, terms)[k].index < |w|
    ensures forall a, b :: 0 <= a < b < |Scan(w, terms)| ==> Scan(w, terms)[a].index < Scan(w, terms)[b].index
    decreases |w|
  {
    if w != [] {
      ScanIncreasing(w[..|w| - 1], terms);
      ScanAtSound(w, terms);
      ScanPrefix(w, terms);
    }
  }

  /** Whether a term is completed at a position depends only on the prefix
      ending there. */
  lemma CompletesAtPrefix(w: string, n: nat, i: nat, terms: seq<string>)
    requires i < n <= |w|
    ensures CompletesAt(w, i, terms) == CompletesAt(w[..n], i, terms)
  {
    assert w[..n][..i + 1] == w[..i + 1];
  }

  /** A sound report marks a position where a term is completed. */
  lemma SoundCompletes(w: string, m: Match, terms: seq<string>)
    requires Sound(w, m, terms)
    ensures m.index < |w| && CompletesAt(w, m.index, terms)
  {
    var p := w[..m.index + 1];
    assert Reports(p, m, terms);
  }

  /** Only positions where some term is completed are logged. */
  lemma ScanOnlyCompletions(w: string, terms: seq<string>)
    ensures forall k :: 0 <= k < |Scan(w, terms)| ==>
      Scan(w, terms)[k].index < |w| && CompletesAt(w, Scan(w, terms)[k].index, terms)
  {
    var logs := Scan(w, terms);
    ScanSound(w, terms);
    forall k | 0 <= k < |logs| ensures logs[k].index < |w| && CompletesAt(w, logs[k].index, terms) {
      SoundCompletes(w, logs[k], terms);
    }
  }

  /** Some entry of `logs` is at position `i`. */
  ghost predicate LoggedAt(logs: seq<Match>, i: nat) {
    exists k :: 0 <= k < |logs| && logs[k].index == i
  }

  /** The verdict at a position, looked at by itself, is in the log. */
  lemma {:induction false} ScanLogsVerdict(w: string, i: nat, terms: seq<string>)
    requires i < |w| && ScanAt(w[..i + 1], terms).Some?
    ensures ScanAt(w[..i + 1], terms).value in Scan(w, terms)
    decreases |w|
  {
    var w' := w[..|w| - 1];
    ScanPrefix(w, terms);
    if i < |w| - 1 {
      assert w'[..i + 1] == w[..i + 1];
      ScanLogsVerdict(w', i, terms);
    } else {
      assert w[..i + 1] == w;
    }
  }

  /** Every position where some term is completed is logged, whatever the
      structural validity, with the verdict for that position. */
  lemma ScanComplete(w: string, terms: seq<string>)
    ensures forall i :: 0 <= i < |w| && CompletesAt(w, i, terms) ==>
      ScanAt(w[..i + 1], terms).Some? && ScanAt(w[..i + 1], terms).value in Scan(w, terms)
    ensures forall i :: 0 <= i < |w| && CompletesAt(w, i, terms) ==> LoggedAt(Scan(w, terms), i)
  {
    forall i | 0 <= i < |w| && CompletesAt(w, i, terms)
      ensures ScanAt(w[..i + 1], terms).Some? && ScanAt(w[..i + 1], terms).value in Scan(w, terms)
      ensures LoggedAt(Scan(w, terms), i)
    {
      CompletesAtPrefix(w, i + 1, i, terms);
      ScanAtCompletes(w[..i + 1], terms);
      ScanAtSound(w[..i + 1], terms);
      ScanLogsVerdict(w, i, terms);
      var logs := Scan(w, terms);
      var k :| 0 <= k < |logs| && logs[k] == ScanAt(w[..i + 1], terms).value;
      assert logs[k].index == i;
    }
  }

  /** A payload shorter than every term is never reported on. */
  lemma {:induction false} ScanShort(w: string, terms: seq<string>)
    requires forall j :: 0 <= j < |terms| ==> |w| < |terms[j]|
    ensures Scan(w, terms) == []
    decreases |w|
  {
    if w != [] {
      ScanShort(w[..|w| - 1], terms);
      assert FirstMatch(NormalizeSeq(w), terms) == None;
    }
  }

  /** One round of the main loop, as the scanner's specification sees it. */
  lemma ScanStep(content: string, i: nat, terms: seq<string>)
    requires i < |content|
    ensures Scan(content[..i + 1], terms) ==
      Scan(content[..i], terms) + (match ScanAt(content[..i + 1], terms) case None => [] case Some(m) => [m])
  {
    assert content[..i + 1][..i] == content[..i];
  }

  /** The scanner's verdict at position `i` when the `k`-th term is the
      first one the normalised prefix ends with. */
  lemma ScanAtFirst(content: string, i: nat, terms: seq<string>, k: nat)
    requires i < |content| && k < |terms|
    requires EndsWith(NormalizeSeq(content[..i + 1]), terms[k])
    requires forall j :: 0 <= j < k ==> !EndsWith(NormalizeSeq(content[..i + 1]), terms[j])
    ensures |terms[k]| <= i + 1
    ensures ScanAt(content[..i + 1], terms) == Some(Match(i, terms[k], content[i + 1 - |terms[k]|..i + 1]))
  {
    var w := content[..i + 1];
    FirstMatchIsFirst(NormalizeSeq(w), terms, k);
    assert w[|w| - |terms[k]|..] == content[i + 1 - |terms[k]|..i + 1];
  }

  /** The inner loop of the scanner at position `i`: the blocklist is tried
      in order and the first term the normalised prefix ends with is
      reported, with the raw snippet that spells it. */
  method MatchAt(content: string, i: nat) returns (m: Option<Match>)
    requires i < |content|
    ensures m == ScanAt(content[..i + 1], Patterns)
  {
    var normalizedContent := NormalizeSeq(content[..i + 1]);
    m := None;
    for k := 0 to |Patterns|
      invariant m == None
      invariant forall j :: 0 <= j < k ==> !EndsWith(normalizedContent, Patterns[j])
    {
      var pattern := Patterns[k];
      if EndsWith(normalizedContent, pattern) {
        ScanAtFirst(content, i, Patterns, k);
        var matchStart := i - |pattern| + 1;
        var snippet := content[matchStart..i + 1];
        m := Some(Match(i, pattern, snippet));
        break;
      }
    }
    if m.None? {
      assert ScanAt(content[..i + 1], Patterns) == None;
    }
  }
}
