# newline-for-multiline-keyword, modelled in Dafny

This project models the ktlint rule `newline-for-multiline-keyword` from the
eygraber ktlint rule set. The rule requires the continuation keywords `else`,
`catch` and `finally` to start a new line when they follow a brace-delimited
branch.

The host hands the rule one syntax-tree node at a time (`beforeVisitChildNodes`).
The rule examines only two kinds of node:

- **IF nodes.** The `else` keyword is checked only when the IF has a THEN holding
  a BLOCK, and its ELSE content is either a BLOCK or an `else if` whose own THEN
  holds a BLOCK.
- **TRY nodes.** Every CATCH clause is checked in child order, then the FINALLY
  clause.

A check looks at the previous sibling of the clause: the `else` keyword itself,
or the CATCH or FINALLY node. If that sibling is whitespace and does not start
with `\n` or `\r\n`, the rule emits `Expected newline before '<keyword>'` at the
keyword's start offset, marked autocorrectable. When the host approves, the rule
rewrites that whitespace leaf to `"\n" + indent`.

## Files

- `syntax_tree.dfy` (module `SyntaxTree`): the tree as an arena of nodes. Each
  node has an element type, a text, a start offset, child indices and a
  previous-sibling index. The module defines `findChildByType` and
  `rawReplaceWithText`. A rewrite moves every node that starts after the
  rewritten leaf by the change in length, because the host derives offsets
  from text lengths.
- `newline_rule.dfy` (module `NewlineForMultilineKeyword`): each check twice.
  - As a function on a snapshot of the tree (`Visit`, `CheckIf`, `CheckTry`, …),
    returning the tree it leaves and the violations it emitted in order.
  - As a method on the live `array<Node>` (`BeforeVisitChildNodes`,
    `CheckIfExpression`, `CheckTryExpression`, …), proved to do exactly what
    the function says. The CATCH loop carries an invariant over the clauses
    processed so far.
- `newline_rule_properties.dfy` (module `NewlineForMultilineKeywordProperties`):
  the rule's guarantees as lemmas. These cover exemptions, clause
  independence, ordering, what a correction may change, approval gating and
  idempotence.

The host's `emit` callback is a parameter `approve: Violation -> bool`, the
host's decision for each violation. The indentation that
`indentWithoutNewlinePrefix` computes for the visited node is a parameter
`indent`.

## Model

| member | source | states |
|---|---|---|
| `SyntaxTree.FindChildByType` | ktlint/src/main/kotlin/com/eygraber/ktlint/rules/NewlineForMultilineKeyword.kt:45-46 | Returns a child of the requested element type exactly when one exists, and it is the first such child in child order |
| `SyntaxTree.FindChildSameShape` | ktlint/src/main/kotlin/com/eygraber/ktlint/rules/NewlineForMultilineKeyword.kt:111-112 | Child lookups give the same answer on any tree of the same shape, so lookups after a rewrite see the original structure |
| `SyntaxTree.ReplaceText` | ktlint/src/main/kotlin/com/eygraber/ktlint/rules/NewlineForMultilineKeyword.kt:79 | Replacing a leaf's text keeps every node's element type, children and siblings; it changes no other node's text; offsets up to the leaf stay put; and every later node keeps its distance from the leaf's new end |
| `SyntaxTree.RawReplaceWithText` | ktlint/src/main/kotlin/com/eygraber/ktlint/rules/NewlineForMultilineKeyword.kt:79 | The in-place rewrite of the live tree yields exactly `ReplaceText` of the old tree |
| `NewlineForMultilineKeyword.StartsWithLineBreak` | ktlint/src/main/kotlin/com/eygraber/ktlint/rules/NewlineForMultilineKeyword.kt:72 | True exactly when `\n` or `\r\n` is a prefix of the text |
| `NewlineForMultilineKeyword.Message` | ktlint/src/main/kotlin/com/eygraber/ktlint/rules/NewlineForMultilineKeyword.kt:75 | The reported texts are exactly `Expected newline before 'else'`, `... 'catch'` and `... 'finally'` (the latter two at lines 100 and 120) |
| `NewlineForMultilineKeyword.IsWhiteSpace` | ktlint/src/main/kotlin/com/eygraber/ktlint/rules/NewlineForMultilineKeyword.kt:70 | A text counts as whitespace exactly when it is non-empty and every character in it is a space, tab, `\n` or `\r` |
| `NewlineForMultilineKeyword.Correction` | ktlint/src/main/kotlin/com/eygraber/ktlint/rules/NewlineForMultilineKeyword.kt:78-79 | The replacement text starts with `\n` and is followed by exactly the indentation |
| `NewlineForMultilineKeyword.MisplacedWhiteSpace` | ktlint/src/main/kotlin/com/eygraber/ktlint/rules/NewlineForMultilineKeyword.kt:68-72 | Finds a node exactly when the anchor's previous sibling exists, is whitespace, and starts with neither `\n` nor `\r\n`; the node found is that sibling |
| `NewlineForMultilineKeyword.CheckKeyword` | ktlint/src/main/kotlin/com/eygraber/ktlint/rules/NewlineForMultilineKeyword.kt:68-81 | Emits at most one violation, and one exactly when the whitespace is misplaced. The violation sits at the keyword's start offset, carries the keyword's message and is autocorrectable. The tree changes only if the host approved, and keeps its shape |
| `NewlineForMultilineKeyword.ThenHasBlock` | ktlint/src/main/kotlin/com/eygraber/ktlint/rules/NewlineForMultilineKeyword.kt:46-49 | Holds exactly when the node has a THEN child and its first THEN child has a BLOCK child |
| `NewlineForMultilineKeyword.ElseContentQualifies` | ktlint/src/main/kotlin/com/eygraber/ktlint/rules/NewlineForMultilineKeyword.kt:55-65 | An ELSE qualifies only if it has a first child that is a BLOCK, or an IF with a THEN; a first child that is a BLOCK always qualifies |
| `NewlineForMultilineKeyword.ElseKeywordToCheck` | ktlint/src/main/kotlin/com/eygraber/ktlint/rules/NewlineForMultilineKeyword.kt:45-65 | A node to check is always an `else` keyword; it is found only when the IF has an ELSE and a THEN, and never when the IF has no `else` keyword |
| `NewlineForMultilineKeyword.CheckIf` | ktlint/src/main/kotlin/com/eygraber/ktlint/rules/NewlineForMultilineKeyword.kt:41-83 | An exempt IF yields nothing and leaves the tree as it was; otherwise there is at most one violation, an autocorrectable `else` violation, and the tree keeps its shape |
| `NewlineForMultilineKeyword.CatchClauses` | ktlint/src/main/kotlin/com/eygraber/ktlint/rules/NewlineForMultilineKeyword.kt:90 | Holds exactly the children of the TRY whose element type is CATCH; with KindFilterConcat, in child order and each once |
| `NewlineForMultilineKeyword.KindFilter` | ktlint/src/main/kotlin/com/eygraber/ktlint/rules/NewlineForMultilineKeyword.kt:90 | Keeps exactly the members of the list that have the requested element type, and is no longer than the list |
| `NewlineForMultilineKeyword.CheckCatch` | ktlint/src/main/kotlin/com/eygraber/ktlint/rules/NewlineForMultilineKeyword.kt:90-107 | A CATCH clause emits one violation exactly when it has a `catch` keyword and the whitespace before the clause node (not before the keyword) is misplaced. The violation is `Expected newline before 'catch'`, autocorrectable, at the start offset of that first `catch` keyword. With no violation, the tree is unchanged. With one, the clause's previous sibling becomes `"\n" + indent` (through `ReplaceText`) exactly when the host approves that violation and the sibling is a leaf; otherwise the tree is unchanged |
| `NewlineForMultilineKeyword.CheckCatches` | ktlint/src/main/kotlin/com/eygraber/ktlint/rules/NewlineForMultilineKeyword.kt:90-108 | Checking the clauses one after another keeps the tree's shape and emits at most one violation per clause |
| `NewlineForMultilineKeyword.CheckFinally` | ktlint/src/main/kotlin/com/eygraber/ktlint/rules/NewlineForMultilineKeyword.kt:110-127 | Emits one violation exactly when the TRY has a FINALLY child, the first one has a `finally` keyword, and the whitespace before the FINALLY node is misplaced. The violation is `Expected newline before 'finally'`, autocorrectable, at the start offset of that keyword. With no violation, the tree is unchanged. With one, the FINALLY node's previous sibling becomes `"\n" + indent` (through `ReplaceText`) exactly when the host approves that violation and the sibling is a leaf; otherwise the tree is unchanged |
| `NewlineForMultilineKeyword.CheckTry` | ktlint/src/main/kotlin/com/eygraber/ktlint/rules/NewlineForMultilineKeyword.kt:85-128 | The TRY check keeps the tree well formed and its shape, and emits at most one violation per CATCH clause plus one; TryLint, CatchesCompose and TryOrder state which, where and in what order |
| `NewlineForMultilineKeyword.Visit` | ktlint/src/main/kotlin/com/eygraber/ktlint/rules/NewlineForMultilineKeyword.kt:31-39 | A node that is neither IF nor TRY yields no violation and leaves the tree unchanged; every visit keeps the tree's shape |
| `NewlineForMultilineKeyword.EmitIfNoLineBreak` | ktlint/src/main/kotlin/com/eygraber/ktlint/rules/NewlineForMultilineKeyword.kt:68-81 | The live check emits and rewrites exactly as `CheckKeyword` specifies |
| `NewlineForMultilineKeyword.CheckIfExpression` | ktlint/src/main/kotlin/com/eygraber/ktlint/rules/NewlineForMultilineKeyword.kt:41-83 | The live IF check emits and rewrites exactly as `CheckIf` specifies |
| `NewlineForMultilineKeyword.CheckCatchClause` | ktlint/src/main/kotlin/com/eygraber/ktlint/rules/NewlineForMultilineKeyword.kt:92-107 | The body of the CATCH loop emits and rewrites exactly as `CheckCatch` specifies |
| `NewlineForMultilineKeyword.CheckCatchClauses` | ktlint/src/main/kotlin/com/eygraber/ktlint/rules/NewlineForMultilineKeyword.kt:90-108 | The `forEach` loop over the CATCH clauses emits and rewrites exactly as `CheckCatches` specifies, its invariant covering the clauses processed so far |
| `NewlineForMultilineKeyword.CheckFinallyClause` | ktlint/src/main/kotlin/com/eygraber/ktlint/rules/NewlineForMultilineKeyword.kt:110-127 | The live FINALLY check emits and rewrites exactly as `CheckFinally` specifies |
| `NewlineForMultilineKeyword.CheckTryExpression` | ktlint/src/main/kotlin/com/eygraber/ktlint/rules/NewlineForMultilineKeyword.kt:85-128 | The live TRY check (the CATCH loop, then FINALLY) emits and rewrites exactly as `CheckTry` specifies |
| `NewlineForMultilineKeyword.BeforeVisitChildNodes` | ktlint/src/main/kotlin/com/eygraber/ktlint/rules/NewlineForMultilineKeyword.kt:31-39 | The live dispatch emits and rewrites exactly as `Visit` specifies |
| `NewlineForMultilineKeywordProperties.IfExempt` | ktlint/src/main/kotlin/com/eygraber/ktlint/rules/NewlineForMultilineKeyword.kt:45-65 | An IF produces nothing and changes nothing in any of these cases: no ELSE; no THEN; THEN without BLOCK; no `else` keyword; ELSE content missing or neither BLOCK nor IF; or an `else if` whose THEN has no BLOCK |
| `NewlineForMultilineKeywordProperties.IfChecked` | ktlint/src/main/kotlin/com/eygraber/ktlint/rules/NewlineForMultilineKeyword.kt:52-72 | Conversely, an IF of the checked shape is checked at its first `else` keyword, inspecting that keyword's own previous sibling |
| `NewlineForMultilineKeywordProperties.ExpressionIfIsExempt` | ktlint/src/test/kotlin/com/eygraber/ktlint/rules/NewlineForMultilineKeywordTest.kt:211-217 | `if(true) 1 else 2` (no braces) yields no violation and no change, even with a space before `else` |
| `NewlineForMultilineKeywordProperties.CatchesCompose` | ktlint/src/main/kotlin/com/eygraber/ktlint/rules/NewlineForMultilineKeyword.kt:90-108 | Checking clauses `a + b` is checking `a`, then `b` on the tree `a` left, with the violations concatenated; no clause stops later ones |
| `NewlineForMultilineKeywordProperties.SkippedCatch` | ktlint/src/main/kotlin/com/eygraber/ktlint/rules/NewlineForMultilineKeyword.kt:92 | A CATCH clause without a `catch` keyword is skipped: the clauses around it give exactly the result they give without it |
| `NewlineForMultilineKeywordProperties.CatchMessages` | ktlint/src/main/kotlin/com/eygraber/ktlint/rules/NewlineForMultilineKeyword.kt:98-101 | Every violation the CATCH loop emits says `Expected newline before 'catch'` and is autocorrectable |
| `NewlineForMultilineKeywordProperties.KindFilterConcat` | ktlint/src/main/kotlin/com/eygraber/ktlint/rules/NewlineForMultilineKeyword.kt:90 | Filtering a concatenation is concatenating the filtered parts, so the CATCH clauses keep child order and each occurs once |
| `NewlineForMultilineKeywordProperties.KindFilterSingle` | ktlint/src/main/kotlin/com/eygraber/ktlint/rules/NewlineForMultilineKeyword.kt:90 | A single node is kept exactly when it has the requested element type |
| `NewlineForMultilineKeywordProperties.CatchUnapproved` | ktlint/src/main/kotlin/com/eygraber/ktlint/rules/NewlineForMultilineKeyword.kt:92-107 | With nothing approved, one CATCH clause leaves the tree unchanged and reports exactly what the reference CatchLint lists |
| `NewlineForMultilineKeywordProperties.CatchesLint` | ktlint/src/main/kotlin/com/eygraber/ktlint/rules/NewlineForMultilineKeyword.kt:90-108 | With nothing approved, the CATCH loop over the CATCH children reports, in child order, one violation at the `catch` keyword of each clause preceded by misplaced whitespace, and leaves the tree unchanged |
| `NewlineForMultilineKeywordProperties.TryLint` | ktlint/src/test/kotlin/com/eygraber/ktlint/rules/NewlineForMultilineKeywordTest.kt:201-204 | With nothing approved, a TRY reports exactly the reference list: in child order, each offending CATCH clause's violation at its `catch` keyword, then the FINALLY violation at the `finally` keyword if its whitespace is misplaced; the tree is unchanged |
| `NewlineForMultilineKeywordProperties.TryOrder` | ktlint/src/test/kotlin/com/eygraber/ktlint/rules/NewlineForMultilineKeywordTest.kt:201-204 | A TRY emits at most one violation per CATCH clause plus one. They split into a run of `catch` violations followed by at most one `finally` violation |
| `NewlineForMultilineKeywordProperties.CheckKeywordCorrects` | ktlint/src/main/kotlin/com/eygraber/ktlint/rules/NewlineForMultilineKeyword.kt:77-80 | After a violation, the whitespace leaf becomes `"\n" + indent` when the host approves; otherwise (no approval, or not a leaf) the tree is unchanged |
| `NewlineForMultilineKeywordProperties.TryOnlyCorrects` | ktlint/src/main/kotlin/com/eygraber/ktlint/rules/NewlineForMultilineKeyword.kt:102-125 | A TRY check changes only the texts of misplaced whitespace leaves, each to `"\n" + indent` |
| `NewlineForMultilineKeywordProperties.VisitOnlyCorrects` | ktlint/src/main/kotlin/com/eygraber/ktlint/rules/NewlineForMultilineKeyword.kt:77-80 | A visit keeps every node's element type, children and siblings. A node's text changes only if it was a misplaced whitespace leaf, and then it becomes `"\n" + indent` |
| `NewlineForMultilineKeywordProperties.VisitUnapproved` | ktlint/src/main/kotlin/com/eygraber/ktlint/rules/NewlineForMultilineKeyword.kt:77 | When the host approves nothing, a visit leaves the tree exactly as it was |
| `NewlineForMultilineKeywordProperties.CheckKeywordSettles` | ktlint/src/main/kotlin/com/eygraber/ktlint/rules/NewlineForMultilineKeyword.kt:70-80 | With approval, a keyword check leaves its own clause with no misplaced whitespace and unsettles no other clause |
| `NewlineForMultilineKeywordProperties.CatchesSettle` | ktlint/src/main/kotlin/com/eygraber/ktlint/rules/NewlineForMultilineKeyword.kt:90-108 | With approval, after the CATCH loop every clause with a `catch` keyword has correctly placed whitespace |
| `NewlineForMultilineKeywordProperties.IfIdempotent` | ktlint/src/main/kotlin/com/eygraber/ktlint/rules/NewlineForMultilineKeyword.kt:67-82 | Re-checking a corrected IF yields no violation and no change |
| `NewlineForMultilineKeywordProperties.TryIdempotent` | ktlint/src/main/kotlin/com/eygraber/ktlint/rules/NewlineForMultilineKeyword.kt:89-127 | Re-checking a corrected TRY yields no violation and no change |
| `NewlineForMultilineKeywordProperties.VisitIdempotent` | ktlint/src/main/kotlin/com/eygraber/ktlint/rules/NewlineForMultilineKeyword.kt:72-79 | When every violation is approved and whitespace nodes are leaves, visiting the corrected node again reports nothing and changes nothing |

## Left out

- The `no-whitespace-after-keyword` rule is not part of this model. Its
  implementation file is not available; only its tests are.
- Rule registration (`EygraberRuleSetProvider.kt`) and the rule's `RuleId` and
  `About` metadata are not modelled. They are plugin plumbing with no logic.
- The host's depth-first traversal is not modelled. The model is one dispatch
  call per node.
- The host's conversion of offsets to line and column is not modelled.
- `indentWithoutNewlinePrefix` is a host library call. It is the parameter
  `indent`, taken as given for the visited node.
- `isWhiteSpace20` is a host library test of the node's element type; its
  definition is not part of this model. It is replaced by a test on the node's
  text: the text is non-empty and consists only of space, tab, `\n` and `\r`.
- `emit` and `ifAutocorrectAllowed` are the parameter `approve`. It gives the
  host's decision for each violation as a pure function of that violation.
- The `LeafPsiElement` cast before `rawReplaceWithText` is modelled as "the node
  has no children". A whitespace node with children is reported but never
  rewritten.
- `SyntaxTree.ReplaceText`: a rewrite updates only the leaf's own text. The
  stored texts of its ancestors are not recomputed; the rule never reads them.
- `SyntaxTree.ReplaceText`: the offset shift assumes the rewritten leaf had
  non-empty text, as host whitespace leaves do. With empty text, a zero-width
  node starting at the same offset but after the leaf would not be moved. The
  rule never rewrites such a leaf, because `IsWhiteSpace` rejects empty text.
- Violation order follows the order of the TRY node's children, as the code
  does. Sorting by ascending keyword offset is not modelled; the two orders
  agree on trees the parser produces.
