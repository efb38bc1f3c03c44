# rsigma: verified models

rsigma evaluates Sigma detection rules against events and converts them into the query languages of
other systems. In several places it replaces something simple by something fast, or re-encodes a rule,
and must not change what the rule means. This project models those places in Dafny and proves that they
keep the meaning, or states exactly when they do.

- **Rule to query.** A condition, its detections and their matchers are rendered as tokens, with
  parentheses decided from an operator tag computed from the shape of each node (`IrConvert`,
  `OperatorTags`, `ConversionState`). `QueryText` holds an independent precedence parser. Parsing the
  output gives a formula with the truth of the rule for all six operator orders (`QueryCorrect`).
  `QueryGrammar` says which texts parse, `QueryShape` what a rule's shape tells of its text, and
  `QueryComplete` proves that every rule's text parses exactly when its shape is sound; for values as the
  repository lowers them that is when no list is empty. `|neq` over deferred values is the negation of the
  values (`NeqDeferred`), and `RuleConversion` composes expansion, rendering and reading. `Convertible` says
  which rules convert, `QueryLeaves` that no comparison is lost or repeated, `QueryGrouping` that parentheses
  stand only where they are needed, and `Selectors` which detections a pattern selects.
- **Encodings.** `Windash`, `Base64` (RFC 4648 section 4), `Unicode` (RFC 3629 section 3, RFC 2781
  section 2.1) and `Encodings` cover the encoded variants of a value: the in-place byte edits of windash,
  the base64 patterns that survive any surrounding bytes, and their combination. `Expansion` shows that
  replacing encoded matchers changes no truth value and no operator tag; `Meaning` says what rules mean
  (`Quantifiers` counts members).
  `Base64Text` and `EncodingResults` decode what the encodings produce, with decoders of their own.
- **Candidate index.** `Evaluation` is the reference evaluation of compiled rules, `Witnesses` the
  analysis of necessary conditions with its soundness proof, `RegexLiterals` and `Folding` the parts of
  it about regexes and case, and `FieldPaths` field lookup and the keys a field is probed under.
  `FieldLookup`, `PathTexts` and `EventStrings` say what a lookup finds, how a path is read and which strings
  an event has, by routes through the event. `Optimizer` batches the alternatives of a value list. `Gating`
  says which rules have witnesses, and which ones, and `GatedRules` on which events such a rule is evaluated.
  `IndexSpec` states what the index must answer, `CandidateSets` and `CandidateIndexes` are the index with
  its loops, and `IndexRebuild` the doubling watermark and the engine that appends rules. `AuditWitness`
  is one step of the audit example that is only sometimes sound.
- **Smaller cores.** `FieldCounts`, `ObserverRuns` and `FieldObservers` cover the field observer under
  concurrency, `CivilDate` day numbers, `RuleDraft` the relaxation loop of drafting, `Partitions` and
  `RuleTune` the greedy search for filters and its verification step, and `PatternText` printing string
  patterns and reading them back.

`dafny verify dfyconfig.toml` checks the project.

Reading notes:

- Where a promise fails, the failing input is a lemma of its own and the exact condition is proved beside
  it: `QueryComplete.ParsesIffSound` (empty lists; failing input
  `RuleConversion.NegatedEmptyValueUnreadable`), `NeqDeferred.NeqNegates` (`|all` of no values),
  `FieldPaths.ProbedOnEveryEvent` (escaped brackets, leading dots; `IndexSpec.UnprobedFieldLost`),
  `IndexSpec.IncrementalCovers` (over-full automata; `IndexSpec.OverfullNotCovered`),
  `RuleTune.VerifyFailsExactly` (a path listed twice by one event lets the verification step of tuning
  fail, which is reported as an internal error; `RuleTune.DoubledExemplarFails`),
  `CivilDate.AcceptedCollide` (dates such as 31 February), `PatternText.RoundTripsIffGuarded` and
  `AuditWitness.KeywordizeSound`.
- `QueryShape` follows values that vanish: `|neq` around a list of which nothing is left renders to no
  text, so the operator tag of the list around it, computed from the node's shape, can be that of a list
  longer than the one rendered. Where NOT does not bind tightest this can put a bare NOT behind a tighter
  operator. Lowering puts a negation only around a whole value list
  (`crates/rsigma-ir/src/lower/mod.rs:209-252`), so no lowered rule has such a list.
- The test `append_rule_never_selects_less_than_build`
  (`crates/rsigma-eval/src/candidate_index.rs:1120`) states that an appended index never selects less than
  a built one. That holds up to rules that a full build would free from an over-full automaton; the code
  is followed.
- The optimizer promises a pure rewrite (`crates/rsigma-eval/src/compiler/optimizer.rs:25-27`) and admits
  negations and conjunctions into the groups that fold a text once (lines 187-190). A group reads one text of
  an array at a time and a list reads each alternative on its own, so for those it is not pure
  (`Optimizer.TwoTextsDiffer`, `Optimizer.GroupsAgreeExactly`). Lowering never nests them into a value list
  (`crates/rsigma-ir/src/lower/mod.rs:225-252`), and for the lists it builds the promise holds
  (`Optimizer.OptimizedItem`).
- Preconditions of the witness results come from the code before them: an `exists` flag has a field
  (`crates/rsigma-ir/src/lower/mod.rs:190-195`) and a count selector is at least one
  (`crates/rsigma-parser/src/ast.rs:308`).

## Model

| member | source | states |
|---|---|---|
| `QueryText.ParseExtend` | crates/rsigma-convert/src/backend.rs:636-661 | text that parses as one phrase still parses so, with the rest left unread, when more text that cannot continue it follows |
| `QueryText.ParseLift` | crates/rsigma-convert/src/backend.rs:547-561 | a phrase complete at one precedence level is the same phrase at every looser level, for all six operator orders |
| `QueryText.ParenReads` | crates/rsigma-convert/src/backend.rs:623-634 | a complete query in parentheses reads as that query at the tightest level |
| `QueryText.ChainJoin` | crates/rsigma-convert/src/backend.rs:636-656 | two complete chains of one operator joined by its token are one chain with the operands of both |
| `QueryText.DefaultIsStandard` | crates/rsigma-convert/src/backend.rs:149-168 | the default grouping decision is that of the order NOT, AND, OR, so the results below cover it |
| `QueryCorrect.GroupedReads` | crates/rsigma-convert/src/ir_convert.rs:40-47 | an operand grouped by its tag alone, or left bare, reads at the level its parent needs with its own truth value |
| `QueryCorrect.JoinReads` | crates/rsigma-convert/src/ir_convert.rs:51-70 | joined operands read as one phrase whose tag is that of the list and whose truth is the connective of theirs; a single operand passes through |
| `QueryCorrect.NegateReads` | crates/rsigma-convert/src/ir_convert.rs:73-76 | a negated operand reads as a NOT phrase with the opposite truth |
| `QueryCorrect.LeafReads` | crates/rsigma-convert/src/ir_convert.rs:336-450 | the text of a field matcher reads with the tag of its node shape and the truth of the matcher |
| `QueryCorrect.InnerReads` | crates/rsigma-convert/src/ir_convert.rs:452-507 | the operand `|neq` negates carries the tag and the truth of the negated values |
| `QueryCorrect.KeywordItemReads` | crates/rsigma-convert/src/ir_convert.rs:250-273 | keyword items, nested lists and negations included, read as they mean |
| `QueryCorrect.KeywordsRead` | crates/rsigma-convert/src/ir_convert.rs:207-229 | keyword lists joined without grouping still read as their disjunction |
| `QueryCorrect.DetectionReads` | crates/rsigma-convert/src/ir_convert.rs:182-229 | the text of a detection reads with the tag and the truth of the detection |
| `Selectors.GlobMatches` | crates/rsigma-parser/src/selector.rs:34-53 | a glob with one star matches exactly the names with any text in its place |
| `Selectors.LastStarMatches` | crates/rsigma-parser/src/selector.rs:37-40 | a glob that ends in a star matches exactly the continuations of what stands before it, stars in it taken literally |
| `Selectors.FirstStarMatches` | crates/rsigma-parser/src/selector.rs:41-52 | any other glob splits at its first star: text between the two sides, which never overlap |
| `Selectors.NoStarMatches` | crates/rsigma-parser/src/selector.rs:53 | a glob without a star matches exactly itself |
| `Selectors.HiddenNames` | crates/rsigma-parser/src/selector.rs:56-66 | a name with a leading underscore is selected only by a glob that starts with one |
| `Selectors.VisibleNames` | crates/rsigma-parser/src/selector.rs:56-66 | any other name is selected by `them` and by every glob that matches it |
| `QueryCorrect.SelectorReads` | crates/rsigma-convert/src/condition_ir.rs:53-83 | a selector reads as the connective of exactly the detections its pattern selects, in name order |
| `QueryCorrect.ConditionReads` | crates/rsigma-convert/src/condition_ir.rs:26-85 | the text of a condition reads with the tag computed from its shape and the truth of the condition |
| `QueryCorrect.QueryMeansCondition` | crates/rsigma-convert/src/condition_ir.rs:26-85 | compiler correctness: parsing the emitted tokens under any of the six precedence orders gives a formula with the truth of the condition, for every condition, detection map and truth assignment, when nothing is deferred or blank and no list is empty |
| `QueryGrammar.ParsesIffGood` | crates/rsigma-convert/src/backend.rs:547-661 | a balanced token text is a query, under any of the six orders, exactly when operands and operators alternate and no NOT follows an operator that binds tighter |
| `QueryGrammar.JoinTextGood` | crates/rsigma-convert/src/backend.rs:636-656 | joined operands are such a text exactly when each of them is and the connective strands no NOT: joining never hides a missing operand |
| `QueryComplete.LeafFits` | crates/rsigma-convert/src/ir_convert.rs:336-450 | a value renders to no text exactly when its shape says it vanishes; otherwise its text reads, and starts with NOT, exactly as its shape says |
| `QueryComplete.InnerFits` | crates/rsigma-convert/src/ir_convert.rs:452-507 | the operand `|neq` negates is missing exactly when no value of the list is left |
| `QueryComplete.DetectionFits` | crates/rsigma-convert/src/ir_convert.rs:182-229 | the text of any detection, empty lists included, reads exactly when its shape is sound |
| `QueryComplete.ConditionFits` | crates/rsigma-convert/src/condition_ir.rs:26-85 | the same for a condition and its selectors, under both walkers |
| `QueryComplete.ParsesIffSound` | crates/rsigma-convert/src/condition_ir.rs:26-85 | for every rule and every precedence order: the emitted text is a query exactly when the shape of the condition is sound, that is, every list keeps a member, no item vanishes, and no connective strands a NOT |
| `QueryComplete.ParsesIffFull` | crates/rsigma-convert/src/condition_ir.rs:26-85 | for values as they are lowered, with a negation only around a whole list: the emitted text is a query exactly when no list is empty, and then it has the truth of the condition |
| `RuleConversion.ExpandedDetectionNegatesWhole` | crates/rsigma-ir/src/encoding.rs:33-81 | expansion never puts a negation inside a value list |
| `RuleConversion.QueryMeansRule` | crates/rsigma-convert/src/condition_ir.rs:100-109 | the pipeline of conversion: expand, render, read back gives the truth of the condition over the unexpanded detections |
| `RuleConversion.ConvertsExactly` | crates/rsigma-convert/src/condition_ir.rs:100-140 | for rules as they are lowered: the query can be read exactly when expansion leaves no list empty, and then means what the rule means |
| `RuleConversion.NegatedEmptyValueUnreadable` | crates/rsigma-ir/src/encoding.rs:190-205 | the failing input: `f|base64offset|neq` over the empty value expands to a negated empty list, which holds on every event but leaves an AND without its first operand |
| `ConversionStates.ConversionState.AddDeferred` | crates/rsigma-convert/src/state.rs:70-72 | appends one deferred part and keeps the earlier ones |
| `ConversionStates.ConversionState.NegateFrom` | crates/rsigma-convert/src/ir_convert.rs:485-500 | flips in place exactly the parts queued since a position |
| `ConversionStates.ConversionState.ConvertLeaf` | crates/rsigma-convert/src/ir_convert.rs:336-450 | renders a matcher; its text and newly queued parts are those of the specification and earlier parts are untouched |
| `ConversionStates.ConversionState.ConvertMatcherList` | crates/rsigma-convert/src/ir_convert.rs:300-319 | the loop over a value list keeps the operands that produced text, in order, and queues the rest; the first error ends it |
| `ConversionStates.ConversionState.ConvertNot` | crates/rsigma-convert/src/ir_convert.rs:452-507 | negates the text or, in place, the parts just queued; refuses mixes |
| `ConversionStates.ConversionState.ConvertItems` | crates/rsigma-convert/src/ir_convert.rs:182-195 | the items of a detection in order, with what they deferred |
| `ConversionStates.ConversionState.ConvertDetections` | crates/rsigma-convert/src/ir_convert.rs:196-206 | the members of a detection list in order, with what they deferred |
| `ConversionStates.ConversionState.ConvertConditions` | crates/rsigma-convert/src/condition_ir.rs:39-48 | the operands of a condition in order, with what they deferred |
| `ConversionStates.ConversionState.ConvertSelected` | crates/rsigma-convert/src/condition_ir.rs:74-82 | the selected detections in name order, with what they deferred |
| `ConversionStates.ConversionState.ConvertCondition` | crates/rsigma-convert/src/condition_ir.rs:26-85 | the walker as it runs: text and queued parts are those of the specification, for rule conditions and for array blocks |
| `NeqDeferred.NeqNegates` | crates/rsigma-convert/src/ir_convert.rs:452-507 | where `|neq` over a comparison or a flat list is accepted, the query text and the deferred parts together are the negation of the list, unless it is an `|all` of no values: exactly then they are not |
| `NeqDeferred.NeqRefuses` | crates/rsigma-convert/src/ir_convert.rs:476-492 | exactly the flat lists refused: a mix of inline and deferred values, or an `|all` of several deferred ones |
| `NeqDeferred.DoubleNegationDiffers` | crates/rsigma-convert/src/ir_convert.rs:452-507 | the nested shape that is not preserved: a negation of a negated deferred list |
| `Convertible.ValueExactly` | crates/rsigma-convert/src/ir_convert.rs:336-507 | which values convert, independently of the renderers: one the backend renders or defers, and under `|neq` no mix of both; and which of them leave text |
| `Convertible.DetectionExactly` | crates/rsigma-convert/src/ir_convert.rs:121-229 | a detection converts exactly when its items, lists, keywords and nesting are ones the walker accepts |
| `Convertible.ConditionExactly` | crates/rsigma-convert/src/condition_ir.rs:26-85 | which conditions convert: every name is known, every selector has a quantifier its scope supports and, in a rule condition, selects something, and every part converts |
| `QueryLeaves.ValueAccounts` | crates/rsigma-convert/src/ir_convert.rs:336-507 | the comparisons of a value list, read left to right, are its query atoms and its deferred parts, each once, with the sign of the negations around it |
| `QueryLeaves.DetectionAccounts` | crates/rsigma-convert/src/ir_convert.rs:121-229 | the same for a detection |
| `QueryLeaves.ConditionAccounts` | crates/rsigma-convert/src/condition_ir.rs:26-85 | conservation: the atoms of the query are the comparisons the backend renders and the deferred parts those it defers, none lost, repeated or reordered, for every condition that converts |
| `QueryGrouping.GroupingNeeded` | crates/rsigma-convert/src/backend.rs:149-168 | between two binary operators, parentheses are asked for exactly when leaving them out changes the truth of the query under some values |
| `QueryGrouping.NotGroupingNeeded` | crates/rsigma-convert/src/backend.rs:149-168 | around a NOT, exactly when leaving them out makes the text unreadable |
| `QueryGrouping.JoinOpens` | crates/rsigma-convert/src/ir_convert.rs:51-70 | joining adds a pair of parentheses around exactly the operands that need one, and none to a single operand |
| `QueryGrouping.NegateOpens` | crates/rsigma-convert/src/ir_convert.rs:73-76 | negating adds one exactly if the operand needs it |
| `Unicode.Utf8Concat` | crates/rsigma-ir/src/encoding.rs:247-249 | the UTF-8 bytes of joined text are the joined bytes |
| `Unicode.Utf8At` | crates/rsigma-ir/src/encoding.rs:220-223 | a character starts at the byte length of the text before it, and its first byte gives its width |
| `Unicode.Utf8RoundTrip` | crates/rsigma-ir/src/encoding.rs:90-133 | UTF-8 text decodes, by a decoder after RFC 3629 section 3, to the characters it encodes |
| `Unicode.Utf8Form` | crates/rsigma-ir/src/encoding.rs:220-223 | each character has the shortest form for its code point, and exactly its bytes after the first are continuations |
| `Unicode.Utf16RoundTrip` | crates/rsigma-ir/src/encoding.rs:150-161 | UTF-16 code units decode to the text they encode |
| `Unicode.LeRoundTrip` | crates/rsigma-ir/src/encoding.rs:150-161 | little-endian bytes give back the code units |
| `Unicode.BeRoundTrip` | crates/rsigma-ir/src/encoding.rs:164-175 | big-endian bytes give back the code units |
| `Base64.EncodedChar` | crates/rsigma-ir/src/encoding.rs:198 | each base64 character is a function of its own group of three bytes |
| `Base64Text.DigitIs` | crates/rsigma-ir/src/encoding.rs:190-205 | the digits are the characters of the alphabet of RFC 4648 section 4, in order |
| `Base64Text.Base64RoundTrip` | crates/rsigma-ir/src/encoding.rs:190-205 | base64 text decodes, by an independent decoder, to the bytes it encodes |
| `Base64.PatternEndIs` | crates/rsigma-ir/src/encoding.rs:199 | where the stable characters end; the subtraction never underflows |
| `Base64.Base64OffsetPatterns` | crates/rsigma-ir/src/encoding.rs:190-205 | the loop collects exactly the emitted patterns of the three alignments |
| `Base64.EmittedIff` | crates/rsigma-ir/src/encoding.rs:200-202 | when an alignment is emitted, so that two bytes are enough for all three |
| `Base64.OffsetPatternFound` | crates/rsigma-ir/src/encoding.rs:184-205 | for all bytes before and after, the pattern for the alignment of what precedes stands in the base64 text of the whole |
| `Base64.LeadingCharDepends` | crates/rsigma-ir/src/encoding.rs:191-201 | every character trimmed in front changes with the bytes before the value |
| `Base64.TrailingCharDepends` | crates/rsigma-ir/src/encoding.rs:192-201 | every character trimmed behind changes with the bytes after the value |
| `Windash.VariantsExact` | crates/rsigma-ir/src/encoding.rs:207-257 | the variants are exactly the patterns that differ from the input in which dash stands at its dash positions, the input included |
| `Windash.VariantsDistinct` | crates/rsigma-ir/src/encoding.rs:239-254 | there are five to the number of dashes of them, each listed once |
| `Windash.VariantsClosed` | crates/rsigma-ir/src/encoding.rs:207-257 | expanding any variant gives the same set |
| `Windash.ReplaceRange` | crates/rsigma-ir/src/encoding.rs:246-250 | replacing the bytes of one character in UTF-8 text is replacing that character, whatever the widths |
| `Windash.EarlierOffset` | crates/rsigma-ir/src/encoding.rs:244-252 | a replacement moves no earlier byte position |
| `Windash.TextOffsets` | crates/rsigma-ir/src/encoding.rs:219-223 | the running byte offsets are the positions of the dashes |
| `Windash.SpellVariant` | crates/rsigma-ir/src/encoding.rs:241-253 | the back-to-front byte edits of one combination spell that variant |
| `Windash.WindashVariants` | crates/rsigma-ir/src/encoding.rs:210-257 | the method returns the variants in combination order, or the error for more than eight dashes |
| `Encodings.EncodeSpelling` | crates/rsigma-ir/src/encoding.rs:112-138 | one spelling through UTF-16 and base64, with the wildcard error |
| `Encodings.EncodeSpellings` | crates/rsigma-ir/src/encoding.rs:111-140 | all spellings in order, stopping at the first error |
| `Encodings.CaughtAnywhere` | crates/rsigma-ir/src/encoding.rs:83-141 | windash, wide and base64offset together: every respelling of the value, in any surrounding bytes, contains an emitted literal when its alignment is emitted |
| `Encodings.LongEnough` | crates/rsigma-ir/src/encoding.rs:190-205 | two characters, or one in UTF-16, are emitted at every alignment |
| `Encodings.WideTextBytes` | crates/rsigma-ir/src/encoding.rs:259-285 | a UTF-16 text pattern spells the encoded bytes exactly for ASCII values |
| `Encodings.Utf16PatternBytes` | crates/rsigma-ir/src/encoding.rs:259-285 | over all three UTF-16 encodings the pattern spells the encoded bytes exactly when there is no byte order mark and the value is ASCII |
| `EncodingResults.BytesReadBack` | crates/rsigma-ir/src/encoding.rs:90-187 | the bytes of a value, UTF-8 or any of the UTF-16 forms with its mark, decode to the value |
| `EncodingResults.ExpandFails` | crates/rsigma-ir/src/encoding.rs:90-141 | expansion fails exactly on more than eight dashes under windash and on wildcards under base64 |
| `EncodingResults.ExpandedAre` | crates/rsigma-ir/src/encoding.rs:90-141 | a match is produced exactly when it encodes some spelling of the value |
| `EncodingResults.Base64ValueIs` | crates/rsigma-ir/src/encoding.rs:125-135 | under base64 it is the one text that decodes to the bytes of the spelling, with the operator kept |
| `EncodingResults.OffsetValueIs` | crates/rsigma-ir/src/encoding.rs:125-135 | under base64offset it is the pattern of each alignment that has one, to be contained |
| `EncodingResults.WideValueIs` | crates/rsigma-ir/src/encoding.rs:136-141 | without base64, operator and wildcards stay and each literal is widened in place |
| `Expansion.PlainMatchesAgree` | crates/rsigma-ir/src/encoding.rs:52-71 | the replacement of one encoded matcher has its truth on every event and its operator tag |
| `Expansion.ExpandMatcherAgrees` | crates/rsigma-ir/src/encoding.rs:50-81 | after expansion no encoded node remains below a matcher and neither truth nor tag changed |
| `Expansion.ExpandDetectionAgrees` | crates/rsigma-ir/src/encoding.rs:33-45 | the same for detections at any depth, array bodies and blocks included |
| `Expansion.ConditionAgrees` | crates/rsigma-convert/src/ir_convert.rs:122-144 | conditions over expanded detections keep their truth and their tags |
| `Expansion.PlainMatcherStays` | crates/rsigma-ir/src/encoding.rs:50-81 | the pass is the identity on a matcher without encodings |
| `Expansion.PlainDetectionStays` | crates/rsigma-ir/src/encoding.rs:33-45 | and on a detection without them |
| `Expansion.ExpandRule` | crates/rsigma-ir/src/encoding.rs:27-31 | the whole pass: plain, same truth and tags, and idempotent |
| `FieldPaths.RootKeyRegistered` | crates/rsigma-eval/src/candidate_index.rs:357-371 | the root key a lookup insists on is one the field is registered under |
| `FieldPaths.ProbeMisses` | crates/rsigma-eval/src/candidate_index.rs:455-474 | probing misses a present field exactly when the event spells it as a flat key and has none of its registered keys |
| `FieldPaths.ProbeComplete` | crates/rsigma-eval/src/event/json.rs:65-106 | a path without escaped brackets is found by probing whenever lookup finds it |
| `FieldPaths.ProbedOnEveryEvent` | crates/rsigma-eval/src/candidate_index.rs:357-371 | for every field text: the field is probed on every event that has it exactly when it has no leading dot, no escaped bracket, and its first part is not a malformed index before an escaped dot |
| `FieldPaths.RootedProbeable` | crates/rsigma-eval/src/candidate_index.rs:571-594 | for a field with a root key that means no escaped bracket |
| `FieldPaths.LeadingDotMissed` | crates/rsigma-eval/src/candidate_index.rs:571-594 | every field with a leading dot is present under an empty key on some event that probing misses |
| `FieldPaths.EscapedMissed` | crates/rsigma-eval/src/candidate_index.rs:357-371 | every field with an escaped bracket is present as a flat key on some event that probing misses |
| `FieldPaths.EarlySplitMissed` | crates/rsigma-eval/src/candidate_index.rs:571-594 | a field whose lookup splits at a dot the index takes as escaped is present on some event that probing misses |
| `FieldLookup.CollectsExactly` | crates/rsigma-eval/src/event/json.rs:262-295 | a lookup collects exactly the values at the end of the routes the path allows: a key enters the first entry of its name, or any member of an array while it waits; an index enters one member, counted from the end if negative |
| `FieldLookup.HitsInOrder` | crates/rsigma-eval/src/event/json.rs:262-295 | and collects them in the order of their routes, one for each route |
| `FieldLookup.FieldIs` | crates/rsigma-eval/src/event/json.rs:65-106 | what `get_field` makes of them: the whole key first, then nothing, the one value, or an array of several |
| `FieldLookup.ShortCutExact` | crates/rsigma-eval/src/event/json.rs:65-106 | leaving out the walk when the event lacks the root key loses no value exactly when the first step of the path is that key |
| `PathTexts.PathReadsBack` | crates/rsigma-eval/src/event/json.rs:224-260 | a path written from keys and indexes, brackets escaped, is read as those steps |
| `EventStrings.StringValuesAre` | crates/rsigma-eval/src/event/json.rs:336-381 | a string is searched for keywords exactly when it ends a route of fewer than 64 steps; numbers count as their JSON text |
| `EventStrings.ProjectionsAre` | crates/rsigma-eval/src/matcher/helpers.rs:40-63 | the strings a matcher compares a value by are those of its scalars, in arrays at any depth |
| `EventStrings.TextItemHolds` | crates/rsigma-eval/src/matcher/matching.rs:67-130 | a comparison holds on an event exactly when one of the texts at the end of the routes of its field, or of the event, compares, folded if it ignores case |
| `EventStrings.AsciiExactly` | crates/rsigma-eval/src/matcher/helpers.rs:25-35 | text counts as ASCII exactly when it takes one byte a character |
| `EventStrings.LettersFold` | crates/rsigma-eval/src/matcher/helpers.rs:25-35 | folding sends each ASCII capital to its small letter and keeps every other character |
| `Folding.AsciiFolds` | crates/rsigma-eval/src/matcher/helpers.rs:25-35 | lowering ASCII letters meets the folding contract the index relies on |
| `RegexLiterals.MatchContainsLiteral` | crates/rsigma-eval/src/witness.rs:473-511 | for every regex tree on which extraction succeeds, every stretch it matches contains one of the literals |
| `RegexLiterals.HaystackContainsLiteral` | crates/rsigma-eval/src/witness.rs:459-471 | and so does every haystack with a match |
| `RegexLiterals.FoldedHaystackContainsLiteral` | crates/rsigma-eval/src/witness.rs:441-457 | and still after folding both sides |
| `AuditWitness.KeywordizeSound` | crates/rsigma-eval/examples/witness_audit.rs:235-255 | dropping presence witnesses from a member-scoped set is sound exactly when the set is all literals or has none |
| `RegexLiterals.LiteralsExactly` | crates/rsigma-eval/src/witness.rs:473-511 | a regex tree has literals exactly when it must match some: a literal text, a captured or repeated tree with literals, a concatenation with such a part, or an alternation of nothing but such branches |
| `RegexLiterals.MandatoryExactly` | crates/rsigma-eval/src/witness.rs:459-471 | literals are used exactly when there are some and none is shorter than two bytes |
| `RegexLiterals.BestPartIs` | crates/rsigma-eval/src/witness.rs:484-497 | a concatenation keeps the literals of one part: no other has a longer shortest literal, or as long a one and fewer literals, and of equals it is the last |
| `RegexLiterals.BranchesExactly` | crates/rsigma-eval/src/witness.rs:498-508 | an alternation keeps the literals of all its branches, and has any only if each of them has |
| `RegexLiterals.MatchesWords` | crates/rsigma-eval/src/witness.rs:459-511 | the matching the literals are judged by: a regex without opaque nodes matches a stretch exactly when the stretch is one of its words |
| `RegexLiterals.MatchesAnywhere` | crates/rsigma-eval/src/witness.rs:459-511 | and a haystack exactly when one of its words stands in it |
| `Optimizer.OptimizeAnyOf` | crates/rsigma-eval/src/compiler/optimizer.rs:75-138 | the loop that sorts alternatives into needles, regexes and others, batches them and wraps the rest |
| `Optimizer.OptimizedText` | crates/rsigma-eval/src/compiler/optimizer.rs:25-27 | the rewriting is pure on every text, for any alternatives: the optimized matcher holds exactly when one of them does |
| `Optimizer.OptimizedItem` | crates/rsigma-eval/src/compiler/optimizer.rs:25-27 | and on every event, present, missing and keyword items alike, for alternatives that are disjunctions down to their leaves, which is what value lists compile to |
| `Optimizer.GroupsAgreeExactly` | crates/rsigma-eval/src/compiler/optimizer.rs:151-196 | where the promise fails for other alternatives: every group that `is_pre_lowerable` admits agrees with its list on a value exactly when the value has a text and all its texts fold to one |
| `Optimizer.TwoTextsDiffer` | crates/rsigma-eval/src/compiler/optimizer.rs:187-190 | the failing input: a conjunction of equalities with two texts of an array |
| `Evaluation.CountIs` | crates/rsigma-eval/src/compiler/mod.rs:309-317 | a count selector counts the selected detections that hold, each once |
| `Evaluation.QuantifiersCount` | crates/rsigma-eval/src/compiler/array.rs:31-65 | array quantifiers by the number of members that hold: some, all and at least one, all, none; a null or missing array has no members |
| `Evaluation.NegatedItem` | crates/rsigma-eval/src/matcher/matching.rs:52-65 | a negated matcher holds exactly where the matcher does not, whether the field is there or not |
| `Evaluation.NullItem` | crates/rsigma-eval/src/matcher/matching.rs:52-65 | a null check holds exactly on a missing field and on null |
| `Evaluation.MoreConditions` | crates/rsigma-eval/src/compiler/mod.rs:177-218 | a rule holds when one of its conditions does: conditions of two rules put together hold where either rule does |
| `Witnesses.OrCombineLoop` | crates/rsigma-eval/src/witness.rs:142-151 | the union loop, with its early exit on an open branch |
| `Witnesses.AndCombineLoop` | crates/rsigma-eval/src/witness.rs:156-173 | the best-set loop |
| `Witnesses.OrNeedsAll` | crates/rsigma-eval/src/witness.rs:140-151 | an OR has witnesses exactly when every branch has |
| `Witnesses.AndKeepsBest` | crates/rsigma-eval/src/witness.rs:153-173 | no witness set on offer is more selective than the one an AND keeps |
| `Witnesses.TextSound` | crates/rsigma-eval/src/witness.rs:310-405 | a matcher that holds on a string, as written or folded once for a group, leaves one of its witnesses in the folded string |
| `Witnesses.ValueSound` | crates/rsigma-eval/src/matcher/matching.rs:67-130 | a matcher that holds on the value of a field leaves a witness on that field |
| `Witnesses.KeywordSound` | crates/rsigma-eval/src/witness.rs:241-242 | a keyword matcher that holds leaves a keyword witness somewhere in the event |
| `Witnesses.ItemSound` | crates/rsigma-eval/src/witness.rs:271-302 | an item that holds has a holding witness; presence is the fallback because the item is false on a missing field |
| `Witnesses.DetectionSound` | crates/rsigma-eval/src/witness.rs:231-269 | a detection that holds has a holding witness |
| `Witnesses.ConditionSound` | crates/rsigma-eval/src/witness.rs:186-225 | a condition that holds has a holding witness, selectors included |
| `Witnesses.RuleSound` | crates/rsigma-eval/src/witness.rs:93-116 | main result: a rule that matches an event is open or has a witness that holds on it |
| `Gating.MatcherFinds` | crates/rsigma-eval/src/witness.rs:310-457 | which matchers have witnesses, by an independent account: foldable text, regexes with literals, groups by any or all; no negations, nulls or comparisons |
| `Gating.ItemFinds` | crates/rsigma-eval/src/witness.rs:271-302 | which items: a field whose matcher fails when the field is missing, `exists: true`, or a keyword with witnesses |
| `Gating.DetectionFinds` | crates/rsigma-eval/src/witness.rs:231-269 | which detections: some item or member of a conjunction, every member of a disjunction |
| `Gating.ConditionFinds` | crates/rsigma-eval/src/witness.rs:186-225 | which conditions: some operand of an AND, every operand of an OR, no NOT, and selectors as their quantifier says |
| `Gating.RuleGatedExactly` | crates/rsigma-eval/src/witness.rs:93-116 | a rule has witnesses exactly when none of its conditions has an alternative without one and some condition offers one; then there is at least one |
| `Gating.ConjunctionKeepsBest` | crates/rsigma-eval/src/witness.rs:153-196 | an AND has the witnesses of its first operand none of whose rivals is more selective |
| `Gating.DisjunctionKeepsAll` | crates/rsigma-eval/src/witness.rs:142-151 | an OR has exactly the witnesses of its operands |
| `Gating.ItemsKeepBest` | crates/rsigma-eval/src/witness.rs:231-236 | the items of a detection have the witnesses of the first best one |
| `Gating.DetectionsKeep` | crates/rsigma-eval/src/witness.rs:237-262 | nested detections keep the best of a conjunction and all of a disjunction |
| `Gating.SelectivityOrder` | crates/rsigma-eval/src/witness.rs:60-76 | equality is more selective than a long substring, that than a short one, that than presence |
| `Gating.LeafWitness` | crates/rsigma-eval/src/witness.rs:310-439 | text compared for equality gives an exact witness, otherwise a substring, without a field a keyword, folded if the comparison is |
| `Gating.PresenceWitness` | crates/rsigma-eval/src/witness.rs:271-302 | a gated item whose matcher has no witness of its own gives the presence of its field |
| `Gating.ValueWitness` | crates/rsigma-eval/src/witness.rs:288-301 | one whose matcher has witnesses gives those |
| `GatedRules.GatedExactly` | crates/rsigma-eval/src/candidate_index.rs:411-419 | a gated rule that a build has filed is a candidate exactly on the events on which one of its witnesses fires |
| `GatedRules.UngatedAlways` | crates/rsigma-eval/src/candidate_index.rs:227-238 | a rule that is not gated is a candidate on every event |
| `GatedRules.SelectionGates` | crates/rsigma-eval/src/witness.rs:186-196 | `selection and not filter` has the witnesses of its selection, whatever the filter |
| `GatedRules.FieldFires` | crates/rsigma-eval/src/candidate_index.rs:476-512 | a witness on a field fires exactly when the field is there and one of its texts, folded, equals or contains what is asked |
| `GatedRules.KeywordFiresExactly` | crates/rsigma-eval/src/candidate_index.rs:514-521 | a keyword fires exactly when some text of the event, fewer than 64 steps in, contains it when folded |
| `GatedRules.OtherEventSkipped` | crates/rsigma-eval/src/witness.rs:186-196 | `selection and not filter` with EventID 4688 is not a candidate on an event with EventID 1 |
| `CandidateSets.CandidateSet.Extend` | crates/rsigma-eval/src/candidate_index.rs:169-178 | adds the rules in range that are not in yet |
| `CandidateSets.CandidateSet.Finish` | crates/rsigma-eval/src/candidate_index.rs:180-185 | the collected rules, each once, in ascending order |
| `IndexSpec.InPlaceSearch` | crates/rsigma-eval/src/candidate_index.rs:124-136 | searching an ASCII haystack in place finds what searching its folded copy finds |
| `IndexSpec.HoldingFires` | crates/rsigma-eval/src/candidate_index.rs:476-522 | a witness that holds on an event selects its rules |
| `IndexSpec.MatchIsCandidate` | crates/rsigma-eval/src/candidate_index.rs:24-26 | a rule that matches an event is among the candidates, when its fields are probed |
| `IndexSpec.SparseIsFull` | crates/rsigma-eval/src/candidate_index.rs:455-474 | sparse probing refines the full scan: when the fields of a rule are probeable, a condition on their text alone, visiting only the fields registered under the own keys of the event answers, on every event, what testing every indexed field would |
| `IndexSpec.SparseIsFullExactly` | crates/rsigma-eval/src/candidate_index.rs:455-474 | a rule gated on a field is answered like the full scan on every event exactly when the field is probeable |
| `IndexSpec.ProbeableFieldsProbed` | crates/rsigma-eval/src/candidate_index.rs:357-371 | probeable fields never go unprobed |
| `IndexSpec.UnprobedFieldLost` | crates/rsigma-eval/src/candidate_index.rs:571-594 | for every other field, a rule that asks for it matches some event without being a candidate |
| `IndexSpec.IncrementalCovers` | crates/rsigma-eval/src/candidate_index.rs:292-344 | appending answers a superset of a batched build, on every event, exactly when no rule below the baseline is orphaned only by the batched build |
| `IndexSpec.RoomyAutomataCover` | crates/rsigma-eval/src/candidate_index.rs:72-79 | so it does whenever no automaton overflows |
| `IndexSpec.OverfullNotCovered` | crates/rsigma-eval/src/candidate_index.rs:38-79 | and does not in general: with a library that takes every set, one rule past the cap of 65536 needles frees rules in the batched build alone |
| `IndexSpec.RoutingDropsConflicts` | crates/rsigma-eval/src/candidate_index.rs:420-453 | routing by product leaves out only always-evaluated rules whose product conflicts |
| `IndexSpec.RoutingKeepsCompatible` | crates/rsigma-eval/src/candidate_index.rs:430-453 | a rule without a product, or with that of the event in any letter case, is routed exactly when it is a candidate |
| `CandidateIndexes.RulesOf` | crates/rsigma-eval/src/candidate_index.rs:148-153 | every rule of a needle map, each once, ascending |
| `CandidateIndexes.CandidateIndex.Entry` | crates/rsigma-eval/src/candidate_index.rs:357-371 | registers a field under exactly its probe keys |
| `CandidateIndexes.CandidateIndex.MarkAllAlways` | crates/rsigma-eval/src/candidate_index.rs:382-388 | adds the listed rules to the always-evaluated set and its product buckets |
| `CandidateIndexes.CandidateIndex.Record` | crates/rsigma-eval/src/candidate_index.rs:239-262 | files one witness of a rule and changes nothing else |
| `CandidateIndexes.CandidateIndex.Gather` | crates/rsigma-eval/src/candidate_index.rs:236-265 | one pass over the rules files each under exactly its witnesses, open rules as always-evaluated |
| `CandidateIndexes.CandidateIndex.BuildAutomata` | crates/rsigma-eval/src/candidate_index.rs:267-284 | builds each automaton that fits; the rules of the others become always-evaluated |
| `CandidateIndexes.CandidateIndex.SortBuckets` | crates/rsigma-eval/src/candidate_index.rs:390-409 | sorting and deduplicating changes no membership |
| `CandidateIndexes.BuiltIsFiled` | crates/rsigma-eval/src/candidate_index.rs:227-288 | a full build files each rule under each witness whose automaton exists |
| `CandidateIndexes.LeftOutIsOrphan` | crates/rsigma-eval/src/candidate_index.rs:267-284 | and leaves to full evaluation exactly the rules with a needle in an over-full automaton |
| `CandidateIndexes.CandidateIndex.Build` | crates/rsigma-eval/src/candidate_index.rs:227-288 | the built index meets its invariant for exactly the given rules |
| `CandidateIndexes.CandidateIndex.AppendRule` | crates/rsigma-eval/src/candidate_index.rs:304-341 | appending keeps the invariant: filed, held, or always-evaluated |
| `CandidateIndexes.CandidateIndex.MarkHaystack` | crates/rsigma-eval/src/candidate_index.rs:138-144 | marks the rules of every needle that occurs |
| `CandidateIndexes.CandidateIndex.ApplyFieldHit` | crates/rsigma-eval/src/candidate_index.rs:476-512 | adds exactly the rules a field selects: presence, folded equality, needles |
| `CandidateIndexes.CandidateIndex.CollectFieldHits` | crates/rsigma-eval/src/candidate_index.rs:455-474 | visits the probed fields, or all when the event cannot name its keys |
| `CandidateIndexes.CandidateIndex.CollectKeywordHits` | crates/rsigma-eval/src/candidate_index.rs:514-521 | adds exactly the rules with a keyword in some string of the event |
| `CandidateIndexes.LookedIsFiled` | crates/rsigma-eval/src/candidate_index.rs:455-521 | looking an event up selects exactly the rules filed under a witness that fires |
| `CandidateIndexes.CandidateIndex.Candidates` | crates/rsigma-eval/src/candidate_index.rs:411-419 | index exactness: the strictly ascending list of exactly the rules that are open, orphaned, held, or have a witness that fires |
| `CandidateIndexes.CandidateIndex.CandidatesWithLogsource` | crates/rsigma-eval/src/candidate_index.rs:430-453 | the routed answer, exactly |
| `CandidateIndexes.PartitionGrows` | crates/rsigma-eval/src/candidate_index.rs:373-380 | marking a rule keeps the product buckets a partition of the always-evaluated set |
| `CandidateIndexes.CandidateIndex.PartitionSizes` | crates/rsigma-eval/src/candidate_index.rs:525-535 | the two compatible buckets and the conflicting rules add up to the always-evaluated set |
| `CandidateIndexes.CandidateIndex.ConflictingUnindexableCount` | crates/rsigma-eval/src/candidate_index.rs:523-535 | the skip count is the number of conflicting always-evaluated rules and never underflows |
| `IndexRebuild.RebuildsAmortize` | crates/rsigma-eval/src/candidate_index.rs:349-355 | from any build, all later rebuilds go over at most two rules per appended one, and the count stays below twice the baseline or 64 |
| `IndexRebuild.RebuildsUnderTwice` | crates/rsigma-eval/src/candidate_index.rs:343-355 | from an empty engine, the rebuilds over n rules go over fewer than 2n |
| `IndexRebuild.RuleEngine.AddRule` | crates/rsigma-eval/src/engine/mod.rs:708-742 | append, then rebuild exactly when there are at least 64 rules and twice as many as at the last build: the index always describes the whole rule list |
| `IndexRebuild.RuleEngine.PendingBounded` | crates/rsigma-eval/src/candidate_index.rs:343-355 | the rules waiting for a rebuild number fewer than max(64, 2 * baseline) - baseline |
| `IndexRebuild.DueAtWatermark` | crates/rsigma-eval/src/candidate_index.rs:349-355 | as long as the rules fit the machine word, a rebuild is due exactly from max(64, 2 * baseline) rules on |
| `IndexRebuild.RuleEngine.Evaluate` | crates/rsigma-eval/src/candidate_index.rs:411-419 | over any run of additions, an event is given every rule with probeable fields that matches it, and of those exactly what a full scan would give |
| `FieldCounts.KeyCounted` | crates/rsigma-eval/src/field_observer.rs:212-220 | one key: tracked keys keep their exact occurrences, keys go untracked only at capacity, and none is lost |
| `ObserverRuns.RunKeeps` | crates/rsigma-eval/src/field_observer.rs:199-288 | every step of every interleaving of observers, snapshots, resets and key-less events keeps the invariants |
| `ObserverRuns.SnapshotsAccount` | crates/rsigma-eval/src/field_observer.rs:235-272 | each snapshot has exact counts for the keys it tracks, counts and overflow add up to the keys of the events recorded since the last reset, its event count is exactly those events and the key-less ones counted by then, and its lifetime counters are the same over the whole run |
| `ObserverRuns.QuiescentTotals` | crates/rsigma-eval/src/field_observer.rs:274-288 | with no observer under way, lifetime counters are what resets returned plus what is there |
| `ObserverRuns.LockReleased` | crates/rsigma-eval/src/field_observer.rs:199-288 | whatever state a run has reached, whoever holds the lock gives it back after finitely many actions |
| `ObserverRuns.KeylessInFlight` | crates/rsigma-eval/src/field_observer.rs:199-206 | a key-less event waits for no lock: a snapshot it falls into sees the counters disagree |
| `FieldObservers.KeysCounted` | crates/rsigma-eval/src/field_observer.rs:212-220 | counting the keys of an event loses none of them |
| `FieldObservers.FieldObserver.CountAll` | crates/rsigma-eval/src/field_observer.rs:212-220 | the loop over the keys |
| `FieldObservers.FieldObserver.Observe` | crates/rsigma-eval/src/field_observer.rs:199-233 | the new state of one observation, the key-less case included |
| `FieldObservers.FieldObserver.Reset` | crates/rsigma-eval/src/field_observer.rs:273-288 | clears what was counted since the last reset and returns it; lifetime counters stay |
| `FieldObservers.FieldObserver.Snapshot` | crates/rsigma-eval/src/field_observer.rs:235-270 | each tracked key once with its exact count, by descending count and then by name, beside the counters |
| `FieldObservers.UnknownAre` | crates/rsigma-eval/src/field_observer.rs:136-145 | the unknown entries are exactly the observed fields no rule names |
| `FieldObservers.Cover` | crates/rsigma-eval/src/field_observer.rs:132-155 | coverage: unknown are exactly the observed fields no rule names, missing exactly the rule fields never observed, both in their order, and the intersection is all the others |
| `FieldObservers.MissingExact` | crates/rsigma-eval/src/field_observer.rs:144-148 | the missing fields are exactly the rule fields no entry observed, in their order |
| `FieldObservers.UnknownExact` | crates/rsigma-eval/src/field_observer.rs:136-143 | the unknown entries are exactly those of fields no rule names, in their order |
| `CivilDate.EpochIsZero` | crates/rsigma-cli/src/rule_meta.rs:129-141 | 1 January 1970 is day zero |
| `CivilDate.YearLength` | crates/rsigma-cli/src/rule_meta.rs:131-141 | years have 365 or 366 days, by the 4, 100 and 400 year rules |
| `CivilDate.MonthLength` | crates/rsigma-cli/src/rule_meta.rs:131-141 | the first of the next month comes exactly the days of this month later, across year ends |
| `CivilDate.TomorrowIsNext` | crates/rsigma-cli/src/rule_meta.rs:129-141 | each date is numbered one after the day before it, over all years |
| `CivilDate.OrderPreserved` | crates/rsigma-cli/src/rule_meta.rs:129-141 | numbers order and distinguish valid dates as the calendar does |
| `CivilDate.DateOf` | crates/rsigma-cli/src/rule_meta.rs:129-141 | every number is the number of a valid date |
| `CivilDate.AcceptedExactly` | crates/rsigma-cli/src/rule_meta.rs:117-127 | rule dates are the dates of the calendar and the days past the end of a month up to the 31st |
| `CivilDate.OverlongRollsOver` | crates/rsigma-cli/src/rule_meta.rs:123-126 | a day past the end of its month, which rule dates admit, is counted into the next month |
| `CivilDate.AcceptedCollide` | crates/rsigma-cli/src/rule_meta.rs:117-127 | an accepted date shares its number with no other valid date exactly when it is valid itself |
| `RuleDraft.DraftCandidate.DropLowestEligible` | crates/rsigma-eval/src/rule_draft.rs:323-341 | removes the lowest-ranked culprit, or else the lowest-ranked field that is not forced |
| `RuleDraft.DraftCandidate.Draft` | crates/rsigma-eval/src/rule_draft.rs:353-423 | the loop terminates with at least the configured minimum of fields or the whole selection; with forms that match what carries the field and a non-empty selection it drafts exactly when no forced field is partial and at least max(1, min(minFields, number selected)) fields are everywhere, and keeps exactly those if it has to drop any; a mismatch reports the forced fields at fault, and a shortfall the floor |
| `RuleDraft.RelaxKeeps` | crates/rsigma-eval/src/rule_draft.rs:353-423 | whatever the engine answers: forced fields stay, none is added, the floor holds, and success means every exemplar matches |
| `RuleDraft.CulpritsAre` | crates/rsigma-eval/src/rule_draft.rs:384-399 | a mismatch names exactly the forced selected fields that some failing exemplar lacks |
| `RuleDraft.DropsPartial` | crates/rsigma-eval/src/rule_draft.rs:323-341 | a step drops a field some exemplar lacks and keeps the order of the others |
| `RuleDraft.DraftsExactly` | crates/rsigma-eval/src/rule_draft.rs:353-423 | with forms that match what carries the field: success exactly when no forced selected field is partial and at least `floor` selected fields are everywhere; the result is those, in rank order |
| `RuleTune.MissingIndexes` | crates/rsigma-eval/src/rule_tune.rs:800-805 | the indexes that are not present, ascending |
| `RuleTune.MoreFieldsBlockLess` | crates/rsigma-eval/src/rule_tune.rs:456-508 | an added field never enlarges the blocked set of true positives |
| `RuleTune.BestField` | crates/rsigma-eval/src/rule_tune.rs:459-492 | the first of the fields not picked yet that blocks the fewest true positives |
| `RuleTune.ProposeGroup` | crates/rsigma-eval/src/rule_tune.rs:452-508 | the greedy loop: each pick is best after those before it, it stops as soon as nothing is blocked and the minimum is met, and never past the maximum; the blocked set is that of the picks |
| `RuleTune.OneProposal` | crates/rsigma-eval/src/rule_tune.rs:452-508 | the search has one result |
| `RuleTune.SoundSpares` | crates/rsigma-eval/src/rule_tune.rs:452-508 | an empty blocked set means between the minimum and the maximum of fields and no true positive matched |
| `RuleTune.ProposeClusters` | crates/rsigma-eval/src/rule_tune.rs:544-626 | the fewest clusters that separate everything if any partition does; otherwise, if allowed, the fewest uncovered false positives |
| `RuleTune.PartitionVerifies` | crates/rsigma-eval/src/rule_tune.rs:311-326 | proposals for a partition that covers all false positives pass verification |
| `RuleTune.Tune` | crates/rsigma-eval/src/rule_tune.rs:218-386 | every outcome of a run: which configurations are invalid, the verification error, as the search and the verification give it; a filter has between one and the configured number of selections, each within the limits on fields and support, spares every true positive and reports exactly the false positives left; with forms that match their groups and eligible partitions that cover, the error is unreachable |
| `RuleTune.NoSeparatorMeans` | crates/rsigma-eval/src/rule_tune.rs:544-626 | where no clean separator is found, every split within the limits has a group without one; with partial filters allowed, it has none with one |
| `RuleTune.SearchedWithin` | crates/rsigma-eval/src/rule_tune.rs:544-626 | whatever the search finds has at least one selection and keeps to the configured limits |
| `RuleTune.AlwaysVerifiesIffCovered` | crates/rsigma-eval/src/rule_tune.rs:311-326 | proposals for given groups pass verification on all exemplars and forms exactly when no false positive is missing from the groups |
| `RuleTune.CanFailIffUncovered` | crates/rsigma-eval/src/rule_tune.rs:218-326 | the verification error is reachable exactly when some eligible partition leaves a false positive out |
| `RuleTune.MissedAlwaysFails` | crates/rsigma-eval/src/rule_tune.rs:218-326 | and then there are forms with which every run ends in that error |
| `RuleTune.RetainedCovers` | crates/rsigma-eval/src/rule_tune.rs:628-656 | the groups of a retained field cover the false positives exactly when none lists the field twice |
| `RuleTune.VerifyFailsExactly` | crates/rsigma-eval/src/rule_tune.rs:218-656 | over the partitions of the retained fields, the verification error is reachable exactly when an exemplar lists an eligible field twice |
| `RuleTune.DoubledLays` | crates/rsigma-eval/src/rule_tune.rs:628-656 | three exemplars whose retained fields give the groups [0, 0] and [1], and [0, 1, 2] |
| `RuleTune.DoubledExemplarFails` | crates/rsigma-eval/src/rule_tune.rs:218-326 | the failing input: for those partitions the whole group is not separated and every run ends in the verification error |
| `Partitions.ScalarPartitions` | crates/rsigma-eval/src/rule_tune.rs:628-656 | the retained fields are those listed as often as there are events, with the events of each value |
| `Partitions.GatherScalars` | crates/rsigma-eval/src/rule_tune.rs:629-653 | the loops gather each listing of a scalar field under its value |
| `Partitions.RetainedPartition` | crates/rsigma-eval/src/rule_tune.rs:654 | the groups of a retained field partition the events, and leave no event out, exactly when no event lists the field twice |
| `Partitions.DoubleListingRetained` | crates/rsigma-eval/src/rule_tune.rs:628-656 | a flat and a nested spelling of one path list it twice: the field is retained with that event twice in a group and another in none |
| `PatternText.ConvertPattern` | crates/rsigma-convert/src/backend.rs:718-772 | the loop over parts and characters, with quoting only of wildcard-free text |
| `PatternText.EscapedExactly` | crates/rsigma-convert/src/backend.rs:725-741 | a literal prints one character for each that is not filtered and one escape for each of those that is the escape, the quote or one the backend adds |
| `PatternText.QuotedExactly` | crates/rsigma-convert/src/backend.rs:757-772 | text is printed in quotes exactly when it has no wildcard and matches what the backend quotes; no bare quote is printed otherwise |
| `PatternText.PatternRoundTrip` | crates/rsigma-convert/src/backend.rs:718-772 | printed text reads back as the pattern up to merged literals and filtered characters, and no bare quote stands inside the quotes |
| `PatternText.RoundTripsIffGuarded` | crates/rsigma-convert/src/backend.rs:718-772 | with distinct tokens, every pattern survives exactly when literals cannot show a bare wildcard |

## Left out

Assumed behaviour of libraries and of code behind an interface:

- Leaf query templates, field quoting and `text_finish_query` are not modelled: a comparison is one atom of the query, and a backend either renders it, defers it or refuses it.
- `TextQueryConfig::and_token` is taken to be non-empty, as it is for every backend in the repository; an AND written as a bare separator is not modelled.
- `convert_negated_field_ref` is the default, a plain negation; the PostgreSQL override is not modelled.
- Array matching during conversion is the default, which refuses it; backends that render array bodies are not modelled.
- Windash, UTF-16 and base64 work on text whose characters are Unicode scalar values; lossy decoding of invalid bytes cannot arise.
- Case folding is a function with the three properties in `Folding.IsFold`; the Unicode lowering table is not modelled.
- The automaton library is taken to report every needle that occurs, ignoring ASCII case, and to accept or refuse a needle set as a whole.
- Optimizer.OptimizedItem: that a regex with a leading `(?i)` matches folded text exactly when it matches the text is taken from the regex library (`Optimizer.FoldSafe`), and whether an automaton or regex set can be built is the library's choice.
- Regex parsing, classes and assertions are an oracle on stretches of the haystack; concatenation, alternation, repetition and captures are modelled.
- Numeric, network, field-reference, template and timestamp comparisons, bodies of array matches and element-scoped blocks are oracles in `Evaluation`; the analysis only uses the presence of their field.
- Atomic counters of the observer are taken as sequentially consistent steps, and its counters as unbounded: saturation after 2^64 observations is not modelled.

Modelled differently from the code:

- Maps of detections are sequences in name order, which is the order the code sorts selected names into.
- Boxed deferred expressions are values in the `deferred` sequence; only their sign changes, as in `DeferredTextExpression::negate`.
- Expansion.ExpandRule: expansion is a function on rule trees, so the partly expanded tree that an error leaves behind is not captured.
- CandidateIndexes.CandidateIndex.AppendRule: takes the next index, which is what the engine passes; gaps in the numbering are not modelled.
- The order of needles inside an automaton and of fields under a probe key is not modelled, nor the sort order of a rule's witnesses; none affects an answer.
- FieldObservers.FieldObserver.Snapshot: the uptime is not modelled.
- CivilDate.OverlongRollsOver: parsing of the date text and the range of 64-bit years are not modelled; years are unbounded.
- RuleTune.Tune: takes each partition as the list of its groups in key order, and a world in which the exemplars fire before filtering; scores, YAML and reports are not modelled.
- RuleDraft.DraftsExactly: assumes a non-empty selection that is emitted as one block; the split into value groups is not modelled.

Not modelled because it would only add easy members, or because it is plumbing:

- Command line, servers, HTTP and stdio clients, configuration, YAML emission, linting, benchmarks and data generators.
- The bloom pre-filter, the cross-rule automaton, the correlation engine, schema classification and routing.
- The simulator and the encoded-literal replay of the audit example, floating-point scores, timestamps, exit codes and metadata lookups.
