# Packet inspector: a verified model of `analyzePacket`

`analyzePacket` (src/App.jsx:17-161) inspects a URL or request payload in a
single left-to-right pass, with two engines running side by side:

- a **structural validator**: a pushdown automaton over the brackets `<>`,
  `{}` and `()`. It logs every transition together with a snapshot of the
  stack. After the first fault (an unexpected or a mismatched closer) it
  stops. At the end of input, a run that is still valid but has openers left
  open is logged as truncated;
- a **signature scanner**: at every position it normalises the prefix read so
  far and tests whether it ends with a blocklist term. Normalisation is
  lower-casing plus the leet-speak table `0→o, 1→l, !→i, @→a, 4→a, $→s, 5→s,
  3→e, 7→t`. The terms are tested in table order, and the first term found is
  logged with the raw snippet that spells it.

A **decision policy** then reports a structural fault first ("Malformed/Injection"),
then a signature ("Phishing Signature"), and otherwise allows the payload
("Clean").

The model has seven modules, one file each:

| file | module | what it holds |
|---|---|---|
| wrappers.dfy | `Wrappers` | `Option` |
| normalizer.dfy | `Normalizer` | `normalizeChar` and its lifting to strings (pure) |
| brackets.dfy | `BracketAutomaton` | the automaton reduced to its stack (`Reduce`), an independent reference definition of balanced words (`Dyck`, by cancelling adjacent matched pairs), and the proof that the two agree |
| structural_validator.dfy | `StructuralValidator` | the logged validator as a function of the prefix read (`Trace`, `Validate`), the properties of its log, and the imperative round `ValidatorRound` |
| signature_scanner.dfy | `SignatureScanner` | the scanner as a function of the prefix read (`Scan`), stated for an arbitrary blocklist, its soundness and completeness, and the inner loop `MatchAt` |
| inspection.dfy | `Inspection` | the policy `Decide`, the specification `Inspect` of the complete result, and the imperative `AnalyzePacket` |
| examples.dfy | `Examples` | one payload per kind of structural fault and four of the sample URLs of src/App.jsx:173-199: verdicts, full structural logs, and the signature entries that decide them |

`AnalyzePacket` keeps the source's form: one `for` loop. Its state is the
stack, the two logs and the two flags. Each round calls `ValidatorRound`,
which is the source's if-chain, and `MatchAt`, which is the loop over the
blocklist with its `break`. Both are proved equal to the specification
functions, and the loop invariant ties the state after `i` rounds to
`Trace` and `Scan` of the prefix `content[..i]`. From that invariant,
`AnalyzePacket` is proved equal to `Inspect(content)`, so every lemma about
`Trace`, `Validate` and `Scan` also describes what the method returns.

One observation from the worked examples: with the table as written,
`1` becomes `l`, so `l0g1n` in sample URL_01 normalises to `logln`. It is
therefore not reported as `login` (`Examples.LeetSpeakPhishing`). The URL is
still blocked, because `P4YPAL` and `S3CUR3` are reported.

## Model

| member | source | states |
|---|---|---|
| Normalizer.ToLower | src/App.jsx:19 | upper-case ASCII letters are mapped to their lower-case letter; every other character is unchanged |
| Normalizer.Substitute | src/App.jsx:20-31 | the table lookup with its fallback to the character itself: a key becomes a lower-case letter and any other character is returned unchanged; its nine entries are `NormalizeTable` |
| Normalizer.Normalize | src/App.jsx:18-32 | the normalised character is canonical: never upper case and never a table key. A table key becomes a lower-case letter, and any other character is only lower-cased |
| Normalizer.NormalizeTable | src/App.jsx:20-31 | the nine table entries as written: `0→o`, `1→l`, `!→i`, `@→a`, `4→a`, `$→s`, `5→s`, `3→e`, `7→t` |
| Normalizer.NormalizeSeq | src/App.jsx:105-109 | the normalised prefix has the length of the raw prefix; position by position it is `NormalizeSeqPointwise` |
| Normalizer.NormalizeSeqPointwise | src/App.jsx:105-109 | normalising a prefix is total and length-preserving: it maps position `i` to the normalised character at `i` |
| Normalizer.NormalizeSeqSlice | src/App.jsx:105-109 | normalising a slice gives the same slice of the normalised string |
| Normalizer.NormalizeSeqAppend | src/App.jsx:105-109 | normalisation distributes over concatenation |
| Normalizer.NormalizeIdempotent | src/App.jsx:18-32 | normalising twice is normalising once |
| Normalizer.NormalizeIgnoresCase | src/App.jsx:19-31 | an upper-case letter and its lower-case letter normalise to the same character |
| BracketAutomaton.CloserOf | src/App.jsx:77-80 | the closer of an opener closes it and is the only character that does |
| BracketAutomaton.Classify | src/App.jsx:55-101 | which branch of the if-chain a character takes, each in both directions: none for a non-bracket, Push exactly for an opener, Unexpected exactly for a closer on an empty stack, Pop exactly for a closer that matches the top, Mismatch exactly for one that does not; partner: `StructuralValidator.TraceRecords` |
| BracketAutomaton.StackStep | src/App.jsx:55-101 | one move on the stack: an opener is pushed, a matching closer pops the top, a non-bracket leaves the stack, and the move faults exactly on an unexpected or mismatched closer; partner: `ReduceSingle` and `StructuralValidator.TraceFollowsReduce` |
| BracketAutomaton.Reduce | src/App.jsx:55-101 | the run of the moves over a word, from a given stack; a fault-free run grows the stack by at most one per character; partner: the reference definition `Dyck`, through `AcceptsIffDyck` |
| BracketAutomaton.Then | src/App.jsx:55-74 | continuing a run over more input: a fault stays a fault; partner: `ReduceAppend` |
| BracketAutomaton.Brackets | src/App.jsx:56-65 | the bracket subsequence contains only brackets and is no longer than the word |
| BracketAutomaton.ReduceAppend | src/App.jsx:51-103 | a run over `a + b` is the run over `a` continued over `b`, and a fault stays a fault |
| BracketAutomaton.ReduceSingle | src/App.jsx:55-103 | a run over one character is one automaton move |
| BracketAutomaton.ReduceCons | src/App.jsx:55-103 | a run over `[c] + w` is the move on `c` followed by the run over `w` |
| BracketAutomaton.ReducePair | src/App.jsx:76-90 | an opener immediately followed by its closer leaves the stack unchanged |
| BracketAutomaton.ReduceCancel | src/App.jsx:76-90 | deleting an adjacent matched pair anywhere in a word does not change the run |
| BracketAutomaton.ReduceBrackets | src/App.jsx:55-103 | the run depends only on the bracket subsequence |
| BracketAutomaton.ReduceIgnores | src/App.jsx:55-103 | a word without brackets leaves the stack unchanged |
| BracketAutomaton.ReduceKeepsOpeners | src/App.jsx:56-90 | starting from a stack of openers, a fault-free run ends with a stack of openers |
| BracketAutomaton.DyckInsert | src/App.jsx:76-90 | inserting a matched pair into a balanced word keeps it balanced |
| BracketAutomaton.DyckReduces | src/App.jsx:55-103 | a balanced word, run from any stack, returns that stack without a fault |
| BracketAutomaton.EmptyingFirstMove | src/App.jsx:56-90 | if a run over `[c] + rest` empties the stack, then the first move was a push or a matching pop, and the rest empties the resulting stack |
| BracketAutomaton.CloseAround | src/App.jsx:76-90 | placing an opener and its closer around the seam of a balanced concatenation keeps it balanced |
| BracketAutomaton.EmptyingIsDyck | src/App.jsx:55-103 | if a bracket word run from a stack of openers empties it, then the stack followed by the word is balanced |
| BracketAutomaton.AcceptedIsDyck | src/App.jsx:51-103 | a bracket word accepted from the empty stack is balanced |
| BracketAutomaton.AcceptsIffDyck | src/App.jsx:51-103 | the automaton accepts a word (ends with an empty stack and no fault) exactly when its bracket subsequence is balanced, in both directions |
| BracketAutomaton.Closing | src/App.jsx:76-90 | the closers for a stack of openers are one per opener |
| BracketAutomaton.ReduceClosing | src/App.jsx:76-90 | those closers, innermost first, empty the stack |
| BracketAutomaton.ClosingIsClosers | src/App.jsx:77-80 | those closers are brackets |
| BracketAutomaton.StackIsUnmatchedOpeners | src/App.jsx:56-90 | after a fault-free run the stack holds only openers, and they are exactly the unmatched ones: appending their closers balances the bracket subsequence |
| BracketAutomaton.DyckAllBrackets | src/App.jsx:56-65 | a balanced word consists of brackets only |
| BracketAutomaton.AllBracketsConcat | src/App.jsx:56-65 | a concatenation of bracket words is a bracket word |
| BracketAutomaton.WrapAccepted | src/App.jsx:56-90 | a word that returns `[o]` to itself, wrapped in `o` and its closer, is accepted from the empty stack |
| BracketAutomaton.NestAccepted | src/App.jsx:56-90 | the wrapped word is a bracket word, and it is accepted |
| BracketAutomaton.DyckNest | src/App.jsx:56-90 | wrapping a balanced word in a matched pair keeps it balanced |
| BracketAutomaton.AcceptedConcat | src/App.jsx:51-103 | two accepted words are accepted one after the other |
| BracketAutomaton.DyckConcat | src/App.jsx:51-103 | the concatenation of balanced words is balanced |
| StructuralValidator.Step | src/App.jsx:55-103 | one round of the validator: after a fault or on a non-bracket the state is unchanged; otherwise exactly one entry is appended, with the current index, the character, the branch `Classify` picks, the new stack and the new flag; the flag never goes back to true; partners: `ValidatorRound` (the source's if-chain) and `TraceRecords` |
| StructuralValidator.Trace | src/App.jsx:51-103 | the state after the loop has read a prefix, with at most one log entry per character; partners: `TraceFollowsReduce`, `TraceLogShape`, `TraceRecords` |
| StructuralValidator.Finish | src/App.jsx:126-137 | the end-of-input check: the flag stays true exactly when it was true with an empty stack; the stack is untouched; the log only grows, and grows exactly when a valid run has openers left; partner: `TruncatedIff` |
| StructuralValidator.Validate | src/App.jsx:51-137 | the whole validator: a valid result has an empty stack, and the log has at most one entry per character plus one; partners: `ValidateIffDyck`, `ValidateLogs` |
| StructuralValidator.LoggedChars | src/App.jsx:58-98 | the characters named by a log's entries, one at most per entry; partner: `TraceLoggedChars` |
| StructuralValidator.TraceFollowsReduce | src/App.jsx:55-103 | `structureValid` stays true exactly while the stack automaton has not faulted, and while it is true the stack is the automaton's stack |
| StructuralValidator.TraceIgnores | src/App.jsx:55-103 | a payload without brackets leaves the validator valid, with an empty stack and an empty log |
| StructuralValidator.TraceStackOpeners | src/App.jsx:56-57 | the stack holds only openers |
| StructuralValidator.TraceStackUnmatched | src/App.jsx:56-90 | while valid, the stack is the list of unmatched openers: closing them, innermost first, balances the brackets read so far |
| StructuralValidator.FrozenAfterFault | src/App.jsx:55-103 | once `structureValid` is false, reading more input changes nothing: no push, no pop, no log entry |
| StructuralValidator.TraceMonotone | src/App.jsx:55-103 | the log only grows (each earlier log is a prefix of each later one), and validity only goes from true to false |
| StructuralValidator.RecordsExtend | src/App.jsx:58-98 | an entry that truthfully records a transition on a prefix still does so on the whole payload |
| StructuralValidator.LastRound | src/App.jsx:55-103 | one loop round adds at most one entry. It adds one only if the state was valid, at the current index, and the entry's `valid` is the new flag; an invalid state is left as it was |
| StructuralValidator.TraceLogShape | src/App.jsx:55-103 | after the loop, indices lie inside the payload and strictly increase, only the last entry can be invalid, and the flag is true exactly when all entries are valid |
| StructuralValidator.TraceRecords | src/App.jsx:56-99 | every entry truthfully records its transition: the character at its index is a bracket; the snapshot is the automaton's stack after the move (or before it, on a fault); the action is Push exactly for an opener, Pop exactly for a valid closer, Unexpected exactly for a fault on an empty stack, and Mismatch exactly for a fault whose top does not match |
| StructuralValidator.NewEntryRecords | src/App.jsx:56-99 | the entry one round adds records the transition it made |
| StructuralValidator.StepRecords | src/App.jsx:56-99 | a bracket read from a valid state whose stack is the automaton's is logged with the automaton's move, its position and its snapshot |
| StructuralValidator.TraceLogs | src/App.jsx:55-103 | the two lemmas above, together |
| StructuralValidator.TraceLoggedChars | src/App.jsx:55-103 | the logged characters are a prefix of the bracket subsequence, and the whole of it while the flag is true |
| StructuralValidator.TraceStep | src/App.jsx:51-103 | one loop round is one `Step` on the prefix read so far |
| StructuralValidator.StepPush | src/App.jsx:56-64 | an opener is pushed and logged as a valid Push, with the snapshot taken after the push |
| StructuralValidator.StepUnexpected | src/App.jsx:66-74 | a closer on an empty stack is logged as an invalid Unexpected with an empty snapshot, and clears the flag |
| StructuralValidator.StepPop | src/App.jsx:76-90 | a matching closer pops the top and is logged as a valid Pop, with the snapshot taken after the pop |
| StructuralValidator.StepMismatch | src/App.jsx:91-99 | a non-matching closer leaves the stack, is logged as an invalid Mismatch with the unchanged snapshot, and clears the flag |
| StructuralValidator.StepIgnored | src/App.jsx:55-65 | after a fault, or for a non-bracket, the state does not change |
| StructuralValidator.ValidatorRound | src/App.jsx:55-103 | the source's if-chain for one round returns exactly the state `Step` specifies |
| StructuralValidator.ValidateIffDyck | src/App.jsx:51-137 | the final `structureValid` is true exactly when the payload's brackets are balanced; then the final stack is empty; the final stack holds only openers |
| StructuralValidator.ValidateLogs | src/App.jsx:55-137 | the final log has at most one invalid entry, and it is the last; the flag is true exactly when all entries are valid; indices strictly increase; every payload entry records its transition; an end-of-input entry can only be the last one, at index `content.length`, invalid, with the non-empty unmatched stack as its snapshot; the logged payload characters are a prefix of the bracket subsequence |
| StructuralValidator.ValidateLogShape | src/App.jsx:55-137 | after the end-of-input check, only the last entry can be invalid, the flag is true exactly when all entries are valid, and indices strictly increase |
| StructuralValidator.ValidateEntries | src/App.jsx:55-137 | every entry of the final log either records a payload transition or is the end-of-input entry: last, at index `content.length`, invalid, with the non-empty stack |
| StructuralValidator.ValidateLoggedChars | src/App.jsx:55-137 | the payload characters of the final log are a prefix of the bracket subsequence |
| StructuralValidator.TruncatedIff | src/App.jsx:126-137 | an end-of-input entry is logged exactly when the automaton read the whole payload without a fault and openers are left unclosed |
| SignatureScanner.EndsWith | src/App.jsx:111 | `endsWith`: the term is no longer than the text and equals its last characters, position by position; partner: `EndsWithSuffix` |
| SignatureScanner.EndsWithSuffix | src/App.jsx:111 | whether a string ends with a term is decided by any suffix at least as long as the term |
| SignatureScanner.FirstMatch | src/App.jsx:110-122 | the loop with `break` picks the first term, in table order, that the normalised prefix ends with, and finds none exactly when no term matches |
| SignatureScanner.FirstMatchIsFirst | src/App.jsx:110-122 | conversely, a matching term preceded only by non-matching ones is the one picked |
| SignatureScanner.ScanAt | src/App.jsx:110-122 | the report for one position: the current index, a blocklist term the normalised prefix ends with, and a raw snippet of the term's length that the prefix ends with; no report exactly when no term matches; partners: `ScanAtSound`, `ScanAtCompletes`, `MatchAt` |
| SignatureScanner.Scan | src/App.jsx:105-123 | the signature log after a prefix, at most one entry per character; partners: `ScanSound`, `ScanComplete`, `ScanIncreasing` |
| SignatureScanner.SoundExtend | src/App.jsx:105-119 | a correct report about a prefix is a correct report about the whole payload |
| SignatureScanner.ScanAtSound | src/App.jsx:105-119 | a report at position `i` is correct: the normalised prefix ends with the term; no earlier term ends there; and the snippet is the raw last `|term|` characters, which normalise to exactly the term |
| SignatureScanner.ScanAtCompletes | src/App.jsx:105-123 | a report is made at a position exactly when some term is completed there |
| SignatureScanner.ScanPrefix | src/App.jsx:105-123 | one round extends the signature log by at most one entry, namely that round's report |
| SignatureScanner.ScanEntrySound | src/App.jsx:105-123 | each entry of the log is a correct report |
| SignatureScanner.ScanSound | src/App.jsx:105-123 | every entry of the log is a correct report |
| SignatureScanner.ScanIncreasing | src/App.jsx:114-121 | log indices lie inside the payload and strictly increase, so there is at most one report per position |
| SignatureScanner.CompletesAtPrefix | src/App.jsx:105-109 | whether a term is completed at `i` depends only on the prefix up to `i` |
| SignatureScanner.SoundCompletes | src/App.jsx:111 | a correct report sits at a position where a term is completed |
| SignatureScanner.ScanOnlyCompletions | src/App.jsx:105-123 | the log reports only positions where a term is completed |
| SignatureScanner.ScanLogsVerdict | src/App.jsx:105-123 | the report at a position, taken by itself, is in the log |
| SignatureScanner.ScanComplete | src/App.jsx:105-123 | every position where some term is completed is reported, with the first matching term |
| SignatureScanner.ScanShort | src/App.jsx:105-123 | a payload shorter than every term yields no report |
| SignatureScanner.ScanStep | src/App.jsx:105-123 | one loop round appends that round's report, if any, to the log |
| SignatureScanner.ScanAtFirst | src/App.jsx:110-119 | if the `k`-th term is the first to match, the report is that term, at `i`, with the raw snippet `content[i + 1 - len..i + 1]` |
| SignatureScanner.MatchAt | src/App.jsx:105-123 | the source's inner loop over the blocklist, with `break`, returns exactly the specified report for position `i` |
| Inspection.Decide | src/App.jsx:139-149 | the payload is allowed exactly when it is structurally valid and no signature was found, and exactly when the reason is "Clean"; a structural fault is reported first |
| Inspection.Inspect | src/App.jsx:17-161 | the complete result: the payload is returned unchanged, `malwareFound` means a non-empty signature log, allowed means valid and clean, and valid means an empty final stack; partners: `AnalyzePacket` (the single pass equals it) and `InspectDecision` |
| Inspection.InspectMalware | src/App.jsx:49-123 | `malwareFound` holds exactly when some term is completed at some position of the payload |
| Inspection.InspectDecision | src/App.jsx:126-149 | end to end: allowed exactly when the brackets are balanced and no term is completed anywhere; "Malformed/Injection" exactly when unbalanced; "Phishing Signature" exactly when balanced and some term is completed |
| Inspection.AnalyzePacket | src/App.jsx:17-161 | the single pass returns exactly `Inspect(content)`. Its flag means balanced, and then the stack is empty; `malwareFound` means a non-empty signature log; allowed means valid and clean |
| Examples.PatternLengths | src/App.jsx:38-47 | the blocklist has eight terms of four to six characters |
| Examples.ShortIsClean | src/App.jsx:38-123 | a payload of fewer than four characters is never reported |
| Examples.OpenerThenLetter | src/App.jsx:56-64 | an opener followed by a letter: one Push entry, stack `[o]` |
| Examples.UnexpectedCloser | src/App.jsx:66-74 | `)`: a single invalid Unexpected entry at 0 with an empty snapshot, blocked as "Malformed/Injection" |
| Examples.MismatchTrace | src/App.jsx:56-99 | `<a}`: the validator's run, a Push and then a Mismatch |
| Examples.MismatchedCloser | src/App.jsx:91-99 | `<a}`: the whole result: a Push at 0, then an invalid Mismatch at 2 whose snapshot still holds `<`; no signature entry; final stack `<`; blocked as "Malformed/Injection" |
| Examples.TruncatedTrace | src/App.jsx:126-137 | `<a`: the end-of-input entry follows the push |
| Examples.TruncatedRequest | src/App.jsx:126-137 | `<a`: the whole result: a Push at 0, then the end-of-input entry at index 2; no signature entry; final stack `<`; blocked as "Malformed/Injection" |
| Examples.CleanTrace | src/App.jsx:56-90 | `(a)`: a Push then a Pop, both valid, and an empty stack |
| Examples.CleanPayload | src/App.jsx:139-149 | `(a)`: the whole result: a Push and a Pop, no signature entry, valid with an empty stack, allowed as "Clean" |
| Examples.TailDecides | src/App.jsx:105-111 | whether the normalised text ends with a term of at most six characters is decided by its last six raw characters |
| Examples.TermEndsAt | src/App.jsx:110-119 | a six-character tail whose normalisation first matches term `k` is reported at its last position |
| Examples.TermAt | src/App.jsx:105-123 | that report is in the log, whatever follows |
| Examples.NoTermAt | src/App.jsx:110-123 | a tail whose normalisation matches no term yields no report at that position |
| Examples.TraceSnoc | src/App.jsx:51-103 | reading one more character is one `Step` |
| Examples.TracePlain | src/App.jsx:55-65 | text without brackets read after any prefix changes nothing |
| Examples.StepOpenEmpty | src/App.jsx:56-64 | an opener on a valid, empty stack is pushed and logged |
| Examples.OpenTrace | src/App.jsx:56-64 | after a prefix left valid with an empty stack, an opener gives the stack `[o]` and one Push entry |
| Examples.StepCloseLast | src/App.jsx:76-90 | the closer of the only opener empties the stack and is logged as a Pop |
| Examples.CloseTrace | src/App.jsx:76-90 | after a prefix that left `[o]`, its closer empties the stack and logs one Pop |
| Examples.OpenPlainTrace | src/App.jsx:55-64 | an opener followed by plain text logs only the Push |
| Examples.PairTrace | src/App.jsx:55-90 | a bracket pair around plain text, read from a valid empty stack, logs exactly a Push at the opener and a Pop at the closer |
| Examples.PlainConcat | src/App.jsx:55-65 | text without brackets stays so under concatenation |
| Examples.LeetTails | src/App.jsx:18-32 | `P4YPAL` normalises to `paypal`, `S3CUR3` to `secure`, and `/l0g1n` to `/logln` |
| Examples.LeetPlain | src/App.jsx:177 | URL_01 has no brackets |
| Examples.LeetPaypalPieces | src/App.jsx:177 | `P4YPAL` is reported at 16 as `paypal` |
| Examples.LeetSecurePieces | src/App.jsx:177 | `S3CUR3` is reported at 23 as `secure` |
| Examples.LeetLoginPieces | src/App.jsx:177 | nothing is reported at the last position of URL_01 |
| Examples.LeetSpeakPhishing | src/App.jsx:175-177 | URL_01: reports `paypal` (snippet `P4YPAL`, index 16) and `secure` (snippet `S3CUR3`, index 23), no report for `l0g1n`, an empty structural log, blocked as "Phishing Signature" |
| Examples.SelectTail | src/App.jsx:18-32 | `SELECT` normalises to `select` |
| Examples.BalancedSqlPlain | src/App.jsx:182 | the text around URL_02's brackets is plain |
| Examples.BalancedSqlSelect | src/App.jsx:182 | `SELECT` is reported at 31 |
| Examples.BalancedSqlStructure | src/App.jsx:182 | URL_02: the validator's final state, a Push at 25 and a Pop at 45 |
| Examples.BalancedSqlInjection | src/App.jsx:180-182 | URL_02: the whole structural log (a Push at 25, a Pop at 45), valid with an empty stack, `select` reported at 31 with snippet `SELECT`, blocked as "Phishing Signature" |
| Examples.BrokenSqlStructure | src/App.jsx:187 | URL_03: the validator's final state, a single Unexpected entry at 20 |
| Examples.BrokenSqlInjection | src/App.jsx:185-187 | URL_03: the `)` at 20 is logged as Unexpected, invalid, blocked as "Malformed/Injection" |
| Examples.ScriptTail | src/App.jsx:18-47 | `script` normalises to itself, ends with the seventh term and with none of the six before it |
| Examples.ScriptPlain | src/App.jsx:192 | the pieces of text between URL_04's brackets are plain |
| Examples.ScriptTags | src/App.jsx:192 | both occurrences of `script` are reported, at 34 and 51 |
| Examples.ScriptStructure | src/App.jsx:192 | URL_04: the validator's final state, six entries for its three bracket pairs |
| Examples.ScriptInjection | src/App.jsx:190-192 | URL_04: the whole structural log (three Push/Pop pairs at 28/35, 41/43 and 44/52), valid with an empty stack, `script` reported at 34 and at 51, blocked as "Phishing Signature" |

## Left out

- Normalizer.ToLower: lower-casing covers ASCII `A`-`Z` only. JavaScript's `toLowerCase` is full Unicode and can even turn one character into two, which would misalign the normalised prefix with the raw payload; case mappings outside ASCII are not modelled.
- Indexing is by Dafny `char`, not by JavaScript's UTF-16 code units, so characters outside the Basic Multilingual Plane count as one position, not two.
- The log messages (`Push '<' onto stack`, `🚨 Injection Suspected: ...` and so on) are replaced by the `Action` enumeration, and the `action` text of signature entries is dropped: they carry no information beyond the kind, the character, the stack top, the snippet and the term, which the entries keep. The decision is the enumeration `Allowed | Blocked` instead of the strings "ALLOWED" and "BLOCKED"; the reasons stay strings.
- The `char: "EOF"` of the end-of-input entry is the constructor `Symbol.Eof`.
- `normChar` (src/App.jsx:53) is computed but never used; it is not modelled.
- Rebuilding the normalised prefix each round (src/App.jsx:105-109) is modelled by its value, `NormalizeSeq(content[..i + 1])`. Its quadratic cost is not modelled.
- The stack snapshots `[...stack]` are modelled as sequence values. Copying versus aliasing is therefore not observable in the model, and the source's copies rule aliasing out anyway.
- The React component (state, handlers, rendering), the generated C++ text and the sample table itself are not part of this model. Four of the samples are proved as lemmas in `Examples`. The safe sample URL_05 (src/App.jsx:194-198) is not worked out; `Examples.CleanPayload` shows the allowed path on a short payload.
- Examples.LeetSpeakPhishing: the signature log of URL_01 is stated by its two reports and the absence of a report at the last position, not as one equality over the whole log; evaluating the scanner at every position of a long literal costs more than the verifier allows.
- Examples.BrokenSqlInjection: the signature log of URL_03 is not stated, for the same reason; the structural fault decides the verdict before it.
- Examples.BalancedSqlInjection, Examples.ScriptInjection: the signature log is stated by membership of its reports, not as one equality, for the same reason.
