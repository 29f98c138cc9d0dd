/** The `newline-for-multiline-keyword` rule: after a brace-delimited branch,
    the continuation keywords `else`, `catch` and `finally` must start a new
    line. The rule is handed one node at a time; for an IF or a TRY node it
    inspects the whitespace before each continuation clause, reports a
    violation when that whitespace does not begin with a line break and,
    when the host approves, rewrites the whitespace to a line break followed
    by the node's indentation.

    Each check exists twice: as a function on a snapshot of the tree, which
    says what the check emits and what tree it leaves, and as a method on the
    live tree, proved to do exactly that. */
module NewlineForMultilineKeyword {
  import opened SyntaxTree

  /** The continuation keywords the rule checks. */
  datatype Continuation = ElseClause | CatchClause | FinallyClause
  {
    function Word(): string
    {
      match this
      case ElseClause => "else"
      case CatchClause => "catch"
      case FinallyClause => "finally"
    }
  }

  /** What the rule hands to the host's `emit` callback. */
  datatype Violation = Violation(offset: int, message: string, canBeAutoCorrected: bool)

  /** The tree a check leaves behind and the violations it emitted, in order. */
  datatype Outcome = Outcome(tree: seq<Node>, emitted: seq<Violation>)

  /** Every violation of `e` carries the message for `c` and is autocorrectable. */
  predicate Reports(e: seq<Violation>, c: Continuation)
  {
    forall i :: 0 <= i < |e| ==> e[i].message == Message(c) && e[i].canBeAutoCorrected
  }

  /** The text reported for each continuation keyword. */
  function Message(c: Continuation): (r: string)
    ensures c == ElseClause ==> r == "Expected newline before 'else'"
    ensures c == CatchClause ==> r == "Expected newline before 'catch'"
    ensures c == FinallyClause ==> r == "Expected newline before 'finally'"
  {
    "Expected newline before '" + c.Word() + "'"
  }

  predicate IsWhiteSpaceChar(ch: char)
  {
    ch == ' ' || ch == '\t' || ch == '\n' || ch == '\r'
  }

  /** `isWhiteSpace20`: the node is a whitespace token, that is, its text is
      non-empty and consists of whitespace only. */
  predicate IsWhiteSpace(text: string): (r: bool)
    ensures r <==> |text| > 0 && forall ch :: ch in text ==> IsWhiteSpaceChar(ch)
  {
    |text| > 0 && forall i :: 0 <= i < |text| ==> IsWhiteSpaceChar(text[i])
  }

  /** The text starts with `\n` or with `\r\n`. */
  function StartsWithLineBreak(text: string): (r: bool)
    ensures r <==> "\n" <= text || "\r\n" <= text
    ensures r ==> |text| > 0 && (text[0] == '\n' || text[0] == '\r')
  {
    (|text| >= 1 && text[0] == '\n') || (|text| >= 2 && text[0] == '\r' && text[1] == '\n')
  }

  /** The replacement text of a correction: a line break, then the indentation. */
  function Correction(indent: string): (r: string)
    ensures StartsWithLineBreak(r) && r[0] == '\n'
    ensures |r| == |indent| + 1 && r[1..] == indent
  {
    "\n" + indent
  }

  /** The whitespace a check inspects before a clause: the previous sibling of
      `anchor`, when it exists, is whitespace and does not start a new line. */
  function MisplacedWhiteSpace(s: seq<Node>, anchor: nat): (r: Option<nat>)
    requires WellFormed(s) && anchor < |s|
    ensures r.Some? ==> r.value < |s| && s[anchor].prev == Some(r.value)
    ensures r.Some? <==>
      s[anchor].prev.Some? && IsWhiteSpace(s[s[anchor].prev.value].text) &&
      !("\n" <= s[s[anchor].prev.value].text) && !("\r\n" <= s[s[anchor].prev.value].text)
  {
    match s[anchor].prev
    case None => None
    case Some(w) =>
      if IsWhiteSpace(s[w].text) && !StartsWithLineBreak(s[w].text) then Some(w) else None
  }

  /** One keyword check: the whitespace before `anchor` is inspected and the
      violation, if any, is reported at the start of `keyword`. */
  function CheckKeyword(s: seq<Node>, anchor: nat, keyword: nat, c: Continuation,
                        indent: string, approve: Violation -> bool): (r: Outcome)
    requires WellFormed(s) && anchor < |s| && keyword < |s|
    ensures WellFormed(r.tree) && SameShape(s, r.tree)
    ensures |r.emitted| <= 1
    ensures r.emitted != [] <==> MisplacedWhiteSpace(s, anchor).Some?
    ensures r.emitted != [] ==> r.emitted[0] == Violation(s[keyword].start, Message(c), true)
    ensures Reports(r.emitted, c)
    ensures r.tree != s ==> r.emitted != [] && approve(r.emitted[0])
  {
    match MisplacedWhiteSpace(s, anchor)
    case None => Outcome(s, [])
    case Some(w) =>
      var v := Violation(s[keyword].start, Message(c), true);
      if approve(v) && IsLeaf(s[w]) then Outcome(ReplaceText(s, w, Correction(indent)), [v])
      else Outcome(s, [v])
  }

  /** Node `n` has a THEN child whose first BLOCK lookup succeeds. */
  predicate ThenHasBlock(s: seq<Node>, n: nat): (r: bool)
    requires WellFormed(s) && n < |s|
    ensures r <==> HasChildOfKind(s, n, Then) && HasChildOfKind(s, FindChildByType(s, n, Then).value, Block)
  {
    match FindChildByType(s, n, Then)
    case None => false
    case Some(t) => FindChildByType(s, t, Block).Some?
  }

  /** The ELSE branch `elseNode` qualifies when its first child is a BLOCK,
      or an IF (an `else if`) whose own THEN has a BLOCK. */
  predicate ElseContentQualifies(s: seq<Node>, elseNode: nat): (r: bool)
    requires WellFormed(s) && elseNode < |s|
    ensures r ==> s[elseNode].children != []
    ensures r ==> var first := s[s[elseNode].children[0]];
      first.kind == Block || (first.kind == If && HasChildOfKind(s, s[elseNode].children[0], Then))
    ensures s[elseNode].children != [] && s[s[elseNode].children[0]].kind == Block ==> r
  {
    var content := s[elseNode].children;
    var isElseBlock := content != [] && s[content[0]].kind == Block;
    var isElseIf := content != [] && s[content[0]].kind == If;
    if isElseIf then ThenHasBlock(s, content[0]) else isElseBlock
  }

  /** The `else` keyword an IF node asks the rule to check, or None when the
      IF is exempt: no ELSE, no THEN, a THEN without a BLOCK, no `else`
      keyword, or an ELSE whose first child is neither a BLOCK nor an IF
      whose own THEN has a BLOCK. */
  function ElseKeywordToCheck(s: seq<Node>, n: nat): (r: Option<nat>)
    requires WellFormed(s) && n < |s|
    ensures r.Some? ==> r.value < |s| && s[r.value].kind == ElseKeyword
    ensures r.Some? ==> HasChildOfKind(s, n, Else) && HasChildOfKind(s, n, Then)
    ensures !HasChildOfKind(s, n, ElseKeyword) ==> r.None?
  {
    match FindChildByType(s, n, Else)
    case None => None
    case Some(elseNode) =>
      if !ThenHasBlock(s, n) then None
      else match FindChildByType(s, n, ElseKeyword)
        case None => None
        case Some(kw) => if ElseContentQualifies(s, elseNode) then Some(kw) else None
  }

  /** `checkIfExpression`. */
  function CheckIf(s: seq<Node>, n: nat, indent: string, approve: Violation -> bool): (r: Outcome)
    requires WellFormed(s) && n < |s|
    ensures WellFormed(r.tree) && SameShape(s, r.tree)
    ensures |r.emitted| <= 1
    ensures ElseKeywordToCheck(s, n).None? ==> r == Outcome(s, [])
    ensures Reports(r.emitted, ElseClause)
  {
    match ElseKeywordToCheck(s, n)
    case None => Outcome(s, [])
    case Some(kw) => CheckKeyword(s, kw, kw, ElseClause, indent, approve)
  }

  /** The CATCH children of `n`, in child order. */
  function CatchClauses(s: seq<Node>, n: nat): (r: seq<nat>)
    requires WellFormed(s) && n < |s|
    ensures InArena(s, r)
    ensures forall c :: c in r <==> c in s[n].children && s[c].kind == Catch
  {
    KindFilter(s, s[n].children, Catch)
  }

  /** The nodes of `cs` whose element type is `k`, in order. */
  function KindFilter(s: seq<Node>, cs: seq<nat>, k: Kind): (r: seq<nat>)
    requires InArena(s, cs)
    ensures InArena(s, r) && |r| <= |cs|
    ensures forall c :: c in r <==> c in cs && s[c].kind == k
    decreases |cs|
  {
    if cs == [] then []
    else
      var rest := KindFilter(s, cs[1..], k);
      assert forall c :: c in cs <==> c == cs[0] || c in cs[1..];
      if s[cs[0]].kind == k then [cs[0]] + rest else rest
  }

  /** One CATCH clause: skipped when it has no `catch` keyword; otherwise the
      whitespace before the clause node itself is inspected. */
  function CheckCatch(s: seq<Node>, c: nat, indent: string, approve: Violation -> bool): (r: Outcome)
    requires WellFormed(s) && c < |s|
    ensures WellFormed(r.tree) && SameShape(s, r.tree)
    ensures |r.emitted| <= 1
    ensures r.emitted != [] <==> HasChildOfKind(s, c, CatchKeyword) && MisplacedWhiteSpace(s, c).Some?
    ensures r.emitted != [] ==>
      r.emitted[0] == Violation(s[FindChildByType(s, c, CatchKeyword).value].start, Message(CatchClause), true)
    // the whitespace before the clause is rewritten only if this violation is approved
    ensures r.emitted != [] ==>
      var w := s[c].prev.value;
      r.tree == if approve(r.emitted[0]) && IsLeaf(s[w]) then ReplaceText(s, w, Correction(indent)) else s
    ensures Reports(r.emitted, CatchClause)
    ensures r.emitted == [] ==> r.tree == s
  {
    match FindChildByType(s, c, CatchKeyword)
    case None => Outcome(s, [])
    case Some(kw) => CheckKeyword(s, c, kw, CatchClause, indent, approve)
  }

  /** The CATCH clauses `cs` checked one after another, each on the tree the
      previous ones left. */
  function CheckCatches(s: seq<Node>, cs: seq<nat>, indent: string, approve: Violation -> bool): (r: Outcome)
    requires WellFormed(s) && InArena(s, cs)
    ensures WellFormed(r.tree) && SameShape(s, r.tree)
    ensures |r.emitted| <= |cs|
    decreases |cs|
  {
    if cs == [] then Outcome(s, [])
    else
      var o := CheckCatches(s, cs[..|cs| - 1], indent, approve);
      var o' := CheckCatch(o.tree, cs[|cs| - 1], indent, approve);
      Outcome(o'.tree, o.emitted + o'.emitted)
  }

  /** Unfolding CheckCatches at its last clause. */
  lemma CheckCatchesLast(s: seq<Node>, init: seq<nat>, c: nat, indent: string, approve: Violation -> bool)
    requires WellFormed(s) && InArena(s, init) && c < |s|
    ensures InArena(s, init + [c])
    ensures
      var o := CheckCatches(s, init, indent, approve);
      var o' := CheckCatch(o.tree, c, indent, approve);
      CheckCatches(s, init + [c], indent, approve) == Outcome(o'.tree, o.emitted + o'.emitted)
  {
    var cs := init + [c];
    assert cs[..|cs| - 1] == init;
  }

  /** A prefix one element longer is the prefix with that element appended. */
  lemma PrefixExtend<T>(xs: seq<T>, i: nat)
    requires i < |xs|
    ensures xs[..i + 1] == xs[..i] + [xs[i]]
  {
  }

  /** The FINALLY clause of `n`, if it has one with a `finally` keyword; the
      whitespace before the FINALLY node itself is inspected. */
  function CheckFinally(s: seq<Node>, n: nat, indent: string, approve: Violation -> bool): (r: Outcome)
    requires WellFormed(s) && n < |s|
    ensures WellFormed(r.tree) && SameShape(s, r.tree)
    ensures |r.emitted| <= 1
    ensures r.emitted != [] <==>
      HasChildOfKind(s, n, Finally) &&
      HasChildOfKind(s, FindChildByType(s, n, Finally).value, FinallyKeyword) &&
      MisplacedWhiteSpace(s, FindChildByType(s, n, Finally).value).Some?
    ensures r.emitted != [] ==>
      var f := FindChildByType(s, n, Finally).value;
      r.emitted[0] == Violation(s[FindChildByType(s, f, FinallyKeyword).value].start, Message(FinallyClause), true)
    // the whitespace before the FINALLY node is rewritten only if this violation is approved
    ensures r.emitted != [] ==>
      var w := s[FindChildByType(s, n, Finally).value].prev.value;
      r.tree == if approve(r.emitted[0]) && IsLeaf(s[w]) then ReplaceText(s, w, Correction(indent)) else s
    ensures Reports(r.emitted, FinallyClause)
    ensures r.emitted == [] ==> r.tree == s
  {
    match FindChildByType(s, n, Finally)
    case None => Outcome(s, [])
    case Some(f) =>
      match FindChildByType(s, f, FinallyKeyword)
      case None => Outcome(s, [])
      case Some(kw) => CheckKeyword(s, f, kw, FinallyClause, indent, approve)
  }

  /** `checkTryExpression`: every CATCH clause in child order, then FINALLY. */
  function CheckTry(s: seq<Node>, n: nat, indent: string, approve: Violation -> bool): (r: Outcome)
    requires WellFormed(s) && n < |s|
    ensures WellFormed(r.tree) && SameShape(s, r.tree)
    ensures |r.emitted| <= |CatchClauses(s, n)| + 1
  {
    var o := CheckCatches(s, CatchClauses(s, n), indent, approve);
    var o' := CheckFinally(o.tree, n, indent, approve);
    Outcome(o'.tree, o.emitted + o'.emitted)
  }

  /** `beforeVisitChildNodes`: only IF and TRY nodes are examined. */
  function Visit(s: seq<Node>, n: nat, indent: string, approve: Violation -> bool): (r: Outcome)
    requires WellFormed(s) && n < |s|
    ensures WellFormed(r.tree) && SameShape(s, r.tree)
    ensures s[n].kind != If && s[n].kind != Try ==> r == Outcome(s, [])
  {
    match s[n].kind
    case If => CheckIf(s, n, indent, approve)
    case Try => CheckTry(s, n, indent, approve)
    case _ => Outcome(s, [])
  }

  // ---------------------------------------------------------------------
  // The rule on the live tree

  /** Inspect the whitespace before `anchor`; on a violation, emit it at the
      start of `keyword` and, if the host approves and the whitespace is a
      leaf, rewrite it to a line break plus `indent`. */
  method EmitIfNoLineBreak(a: array<Node>, anchor: nat, keyword: nat, c: Continuation,
                           indent: string, approve: Violation -> bool) returns (emitted: seq<Violation>)
    requires WellFormed(a[..]) && anchor < a.Length && keyword < a.Length
    modifies a
    ensures a[..] == CheckKeyword(old(a[..]), anchor, keyword, c, indent, approve).tree
    ensures emitted == CheckKeyword(old(a[..]), anchor, keyword, c, indent, approve).emitted
  {
    emitted := [];
    var whitespace := a[anchor].prev;
    if whitespace.Some? && IsWhiteSpace(a[whitespace.value].text) {
      var w := whitespace.value;
      if !StartsWithLineBreak(a[w].text) {
        var v := Violation(a[keyword].start, Message(c), true);
        emitted := [v];
        if approve(v) && IsLeaf(a[w]) {
          RawReplaceWithText(a, w, Correction(indent));
        }
      }
    }
  }

  method CheckIfExpression(a: array<Node>, n: nat, indent: string, approve: Violation -> bool)
    returns (emitted: seq<Violation>)
    requires WellFormed(a[..]) && n < a.Length
    modifies a
    ensures a[..] == CheckIf(old(a[..]), n, indent, approve).tree
    ensures emitted == CheckIf(old(a[..]), n, indent, approve).emitted
  {
    var elseKeyword := ElseKeywordToCheck(a[..], n);
    if elseKeyword.None? {
      return [];
    }
    emitted := EmitIfNoLineBreak(a, elseKeyword.value, elseKeyword.value, ElseClause, indent, approve);
  }

  /** One CATCH clause of `checkTryExpression`'s loop. */
  method CheckCatchClause(a: array<Node>, catchNode: nat, indent: string, approve: Violation -> bool)
    returns (emitted: seq<Violation>)
    requires WellFormed(a[..]) && catchNode < a.Length
    modifies a
    ensures a[..] == CheckCatch(old(a[..]), catchNode, indent, approve).tree
    ensures emitted == CheckCatch(old(a[..]), catchNode, indent, approve).emitted
  {
    var catchKeyword := FindChildByType(a[..], catchNode, CatchKeyword);
    if catchKeyword.None? {
      return [];
    }
    emitted := EmitIfNoLineBreak(a, catchNode, catchKeyword.value, CatchClause, indent, approve);
  }

  /** The FINALLY part of `checkTryExpression`. */
  method CheckFinallyClause(a: array<Node>, n: nat, indent: string, approve: Violation -> bool)
    returns (emitted: seq<Violation>)
    requires WellFormed(a[..]) && n < a.Length
    modifies a
    ensures a[..] == CheckFinally(old(a[..]), n, indent, approve).tree
    ensures emitted == CheckFinally(old(a[..]), n, indent, approve).emitted
  {
    var finallyNode := FindChildByType(a[..], n, Finally);
    if finallyNode.None? {
      return [];
    }
    var finallyKeyword := FindChildByType(a[..], finallyNode.value, FinallyKeyword);
    if finallyKeyword.None? {
      return [];
    }
    emitted := EmitIfNoLineBreak(a, finallyNode.value, finallyKeyword.value, FinallyClause, indent, approve);
  }

  /** The `forEach` over the CATCH clauses of `checkTryExpression`: each
      clause is checked on the tree the previous ones left. */
  method CheckCatchClauses(a: array<Node>, catches: seq<nat>, indent: string, approve: Violation -> bool)
    returns (emitted: seq<Violation>)
    requires WellFormed(a[..]) && InArena(a[..], catches)
    modifies a
    ensures a[..] == CheckCatches(old(a[..]), catches, indent, approve).tree
    ensures emitted == CheckCatches(old(a[..]), catches, indent, approve).emitted
  {
    ghost var s := a[..];
    emitted := [];
    var i := 0;
    while i < |catches|
      invariant 0 <= i <= |catches| && |s| == a.Length
      invariant a[..] == CheckCatches(s, catches[..i], indent, approve).tree
      invariant emitted == CheckCatches(s, catches[..i], indent, approve).emitted
    {
      PrefixExtend(catches, i);
      CheckCatchesLast(s, catches[..i], catches[i], indent, approve);
      var e := CheckCatchClause(a, catches[i], indent, approve);
      emitted := emitted + e;
      i := i + 1;
    }
    assert catches[..i] == catches;
  }

  method CheckTryExpression(a: array<Node>, n: nat, indent: string, approve: Violation -> bool)
    returns (emitted: seq<Violation>)
    requires WellFormed(a[..]) && n < a.Length
    modifies a
    ensures a[..] == CheckTry(old(a[..]), n, indent, approve).tree
    ensures emitted == CheckTry(old(a[..]), n, indent, approve).emitted
  {
    var catches := CatchClauses(a[..], n);
    emitted := CheckCatchClauses(a, catches, indent, approve);
    var e := CheckFinallyClause(a, n, indent, approve);
    emitted := emitted + e;
  }

  /** The rule's entry point, called by the host for each node before its
      children are visited; `indent` is the node's indentation and `approve`
      is the host's answer to each emitted violation. */
  method BeforeVisitChildNodes(a: array<Node>, n: nat, indent: string, approve: Violation -> bool)
    returns (emitted: seq<Violation>)
    requires WellFormed(a[..]) && n < a.Length
    modifies a
    ensures a[..] == Visit(old(a[..]), n, indent, approve).tree
    ensures emitted == Visit(old(a[..]), n, indent, approve).emitted
  {
    match a[n].kind
    case If => emitted := CheckIfExpression(a, n, indent, approve);
    case Try => emitted := CheckTryExpression(a, n, indent, approve);
    case _ => emitted := [];
  }
}
