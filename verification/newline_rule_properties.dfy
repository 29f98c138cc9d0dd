/** What the `newline-for-multiline-keyword` rule guarantees, stated over the
    snapshot functions of NewlineForMultilineKeyword (which the methods on
    the live tree are proved to follow). */
module NewlineForMultilineKeywordProperties {
  import opened SyntaxTree
  import opened NewlineForMultilineKeyword

  // ---------------------------------------------------------------------
  // Which nodes and shapes are examined

  /** The shapes of IF that the rule leaves alone: no ELSE, no THEN, a THEN
      without a BLOCK, an ELSE whose content is neither a BLOCK nor an IF,
      and an `else if` whose inner THEN has no BLOCK. */
  lemma {:induction false} IfExempt(s: seq<Node>, n: nat, indent: string, approve: Violation -> bool)
    requires WellFormed(s) && n < |s| && s[n].kind == If
    requires
      || !HasChildOfKind(s, n, Else)
      || !HasChildOfKind(s, n, Then)
      || !HasChildOfKind(s, FindChildByType(s, n, Then).value, Block)
      || !HasChildOfKind(s, n, ElseKeyword)
      || (var e := FindChildByType(s, n, Else).value;
          var content := s[e].children;
          || content == []
          || (s[content[0]].kind != Block && s[content[0]].kind != If)
          || (s[content[0]].kind == If && !ThenHasBlock(s, content[0])))
    ensures Visit(s, n, indent, approve) == Outcome(s, [])
  {
  }

  /** Conversely, an IF of the checked shape has its first `else` keyword
      checked, with the whitespace before the keyword itself. */
  lemma IfChecked(s: seq<Node>, n: nat, indent: string, approve: Violation -> bool)
    requires WellFormed(s) && n < |s| && s[n].kind == If
    requires HasChildOfKind(s, n, Else) && ThenHasBlock(s, n) && HasChildOfKind(s, n, ElseKeyword)
    requires
      var content := s[FindChildByType(s, n, Else).value].children;
      content != [] &&
      (s[content[0]].kind == Block || (s[content[0]].kind == If && ThenHasBlock(s, content[0])))
    ensures
      var kw := FindChildByType(s, n, ElseKeyword).value;
      Visit(s, n, indent, approve) == CheckKeyword(s, kw, kw, ElseClause, indent, approve)
  {
    var e := FindChildByType(s, n, Else).value;
    assert ElseContentQualifies(s, e);
    assert ElseKeywordToCheck(s, n) == FindChildByType(s, n, ElseKeyword);
  }

  /** The IF node of `if(true) 1 else 2` and its parts: the THEN holds the
      literal `1`, not a BLOCK. */
  function ExprIfArena(): (s: seq<Node>)
    ensures WellFormed(s) && |s| == 8 && s[0].kind == If
  {
    [ Node(If, "if(true) 1 else 2", 12, [1, 2, 3, 4, 5], None),
      Node(Then, "1", 21, [6], None),
      Node(Other, " ", 22, [], Some(1)),
      Node(ElseKeyword, "else", 23, [], Some(2)),
      Node(Other, " ", 27, [], Some(3)),
      Node(Else, "2", 28, [7], Some(4)),
      Node(Other, "1", 21, [], None),
      Node(Other, "2", 28, [], None) ]
  }

  /** An expression-bodied `if(true) 1 else 2`: its THEN holds no BLOCK, so
      nothing is reported however the `else` is spaced. */
  lemma ExpressionIfIsExempt(indent: string, approve: Violation -> bool)
    ensures Visit(ExprIfArena(), 0, indent, approve) == Outcome(ExprIfArena(), [])
  {
    ExprIfThenHasNoBlock();
    IfExempt(ExprIfArena(), 0, indent, approve);
  }

  /** The first THEN of `if(true) 1 else 2` is node 1, which holds no BLOCK. */
  lemma ExprIfThenHasNoBlock()
    ensures FindChildByType(ExprIfArena(), 0, Then) == Some(1)
    ensures !HasChildOfKind(ExprIfArena(), 1, Block)
  {
    var s := ExprIfArena();
    assert HasChildOfKind(s, 0, Then) by {
      assert 1 in s[0].children && s[1].kind == Then;
    }
    assert s[1].children == [6];
  }

  // ---------------------------------------------------------------------
  // CATCH clauses: independent, in child order

  /** Checking the clauses `a + b` is checking `a`, then `b` on the tree `a`
      left: no clause stops the ones after it. */
  lemma {:induction false} CatchesCompose(s: seq<Node>, a: seq<nat>, b: seq<nat>,
                                         indent: string, approve: Violation -> bool)
    requires WellFormed(s) && InArena(s, a) && InArena(s, b) && InArena(s, a + b)
    ensures
      var o := CheckCatches(s, a, indent, approve);
      var o' := CheckCatches(o.tree, b, indent, approve);
      CheckCatches(s, a + b, indent, approve) == Outcome(o'.tree, o.emitted + o'.emitted)
    decreases |b|
  {
    InArenaConcat(s, a, b);
    if b == [] {
      assert a + b == a;
    } else {
      var b0 := b[..|b| - 1];
      var last := b[|b| - 1];
      assert b == b0 + [last];
      ConcatAssoc(a, b0, [last]);
      InArenaConcat(s, a, b0);
      CatchesCompose(s, a, b0, indent, approve);
      var o := CheckCatches(s, a, indent, approve);
      var o2 := CheckCatches(o.tree, b0, indent, approve);
      var o4 := CheckCatch(o2.tree, last, indent, approve);
      CheckCatchesLast(o.tree, b0, last, indent, approve);
      CheckCatchesLast(s, a + b0, last, indent, approve);
      ConcatAssoc(o.emitted, o2.emitted, o4.emitted);
    }
  }

  lemma InArenaConcat(s: seq<Node>, a: seq<nat>, b: seq<nat>)
    requires InArena(s, a) && InArena(s, b)
    ensures InArena(s, a + b)
  {
    var ab := a + b;
    forall j | 0 <= j < |ab| ensures ab[j] < |s| {
      if j >= |a| { assert ab[j] == b[j - |a|]; }
    }
  }

  lemma ConcatAssoc<T>(x: seq<T>, y: seq<T>, z: seq<T>)
    ensures (x + y) + z == x + (y + z)
  {
  }

  /** A CATCH clause without a `catch` keyword is skipped: the clauses around
      it are checked exactly as if it were not there. */
  lemma SkippedCatch(s: seq<Node>, a: seq<nat>, c: nat, b: seq<nat>,
                     indent: string, approve: Violation -> bool)
    requires WellFormed(s) && InArena(s, a) && c < |s| && InArena(s, b)
    requires !HasChildOfKind(s, c, CatchKeyword)
    ensures InArena(s, a + [c] + b) && InArena(s, a + b)
    ensures CheckCatches(s, a + [c] + b, indent, approve) == CheckCatches(s, a + b, indent, approve)
  {
    InArenaConcat(s, a, [c]);
    InArenaConcat(s, a + [c], b);
    InArenaConcat(s, a, b);
    var o := CheckCatches(s, a, indent, approve);
    CheckCatchesLast(s, a, c, indent, approve);
    FindChildSameShape(s, o.tree, c, CatchKeyword);
    assert CheckCatches(s, a + [c], indent, approve) == o;
    CatchesCompose(s, a + [c], b, indent, approve);
    CatchesCompose(s, a, b, indent, approve);
  }

  /** Every violation the CATCH clauses emit is a `catch` violation. */
  lemma {:induction false} CatchMessages(s: seq<Node>, cs: seq<nat>, indent: string, approve: Violation -> bool)
    requires WellFormed(s) && InArena(s, cs)
    ensures Reports(CheckCatches(s, cs, indent, approve).emitted, CatchClause)
    decreases |cs|
  {
    if cs != [] {
      var init := cs[..|cs| - 1];
      var last := cs[|cs| - 1];
      assert cs == init + [last];
      var o := CheckCatches(s, init, indent, approve);
      CatchMessages(s, init, indent, approve);
      var o' := CheckCatch(o.tree, last, indent, approve);
      CheckCatchesLast(s, init, last, indent, approve);
      ReportsConcat(o.emitted, o'.emitted, CatchClause);
    }
  }

  lemma ReportsConcat(x: seq<Violation>, y: seq<Violation>, c: Continuation)
    requires Reports(x, c) && Reports(y, c)
    ensures Reports(x + y, c)
  {
    var xy := x + y;
    forall i | 0 <= i < |xy| ensures xy[i].message == Message(c) && xy[i].canBeAutoCorrected {
      if i >= |x| { assert xy[i] == y[i - |x|]; }
    }
  }

  /** The violations of a TRY come out in source order: one per offending
      CATCH clause first, then at most one for FINALLY. */
  lemma TryOrder(s: seq<Node>, n: nat, indent: string, approve: Violation -> bool)
    requires WellFormed(s) && n < |s| && s[n].kind == Try
    ensures var e := Visit(s, n, indent, approve).emitted;
      && |e| <= |CatchClauses(s, n)| + 1
      && (exists k :: 0 <= k <= |e| && |e| - k <= 1 && Reports(e[..k], CatchClause) && Reports(e[k..], FinallyClause))
  {
    var o := CheckCatches(s, CatchClauses(s, n), indent, approve);
    CatchMessages(s, CatchClauses(s, n), indent, approve);
    var f := CheckFinally(o.tree, n, indent, approve);
    var e := o.emitted + f.emitted;
    assert Visit(s, n, indent, approve).emitted == e;
    var k := |o.emitted|;
    assert e[..k] == o.emitted && e[k..] == f.emitted;
  }

  /** The CATCH clauses of a TRY keep their child order and each occurs
      once: filtering a concatenation concatenates the filtered parts. */
  lemma {:induction false} KindFilterConcat(s: seq<Node>, a: seq<nat>, b: seq<nat>, k: Kind)
    requires InArena(s, a) && InArena(s, b)
    ensures InArena(s, a + b)
    ensures KindFilter(s, a + b, k) == KindFilter(s, a, k) + KindFilter(s, b, k)
    decreases |a|
  {
    InArenaConcat(s, a, b);
    if a == [] {
      assert a + b == b;
    } else {
      var x, tail := a[0], a[1..];
      assert a == [x] + tail;
      ConcatAssoc([x], tail, b);
      InArenaConcat(s, tail, b);
      KindFilterCons(s, x, tail, k);
      KindFilterCons(s, x, tail + b, k);
      KindFilterConcat(s, tail, b, k);
      var head := if s[x].kind == k then [x] else [];
      ConcatAssoc(head, KindFilter(s, tail, k), KindFilter(s, b, k));
    }
  }

  lemma KindFilterCons(s: seq<Node>, x: nat, rest: seq<nat>, k: Kind)
    requires x < |s| && InArena(s, rest)
    ensures InArena(s, [x] + rest)
    ensures KindFilter(s, [x] + rest, k) == (if s[x].kind == k then [x] else []) + KindFilter(s, rest, k)
  {
    var xs := [x] + rest;
    assert xs[0] == x && xs[1..] == rest;
  }

  /** A single node is kept exactly when it has the element type asked for. */
  lemma KindFilterSingle(s: seq<Node>, c: nat, k: Kind)
    requires c < |s|
    ensures InArena(s, [c])
    ensures KindFilter(s, [c], k) == if s[c].kind == k then [c] else []
  {
    assert [c][1..] == [];
  }

  /** Reference definition of what a TRY reports when nothing is rewritten:
      for a CATCH child with a `catch` keyword and misplaced whitespace before
      the clause, one violation at the start of that keyword. */
  function CatchLint(s: seq<Node>, c: nat): seq<Violation>
    requires WellFormed(s) && c < |s|
  {
    if s[c].kind == Catch && HasChildOfKind(s, c, CatchKeyword) && MisplacedWhiteSpace(s, c).Some?
    then [Violation(s[FindChildByType(s, c, CatchKeyword).value].start, Message(CatchClause), true)]
    else []
  }

  /** The CATCH violations of the children `cs`, in child order. */
  function ChildrenLint(s: seq<Node>, cs: seq<nat>): seq<Violation>
    requires WellFormed(s) && InArena(s, cs)
    decreases |cs|
  {
    if cs == [] then [] else CatchLint(s, cs[0]) + ChildrenLint(s, cs[1..])
  }

  /** The FINALLY violation of `n`: at the start of the `finally` keyword,
      when the first FINALLY child has one and misplaced whitespace before it. */
  function FinallyLint(s: seq<Node>, n: nat): seq<Violation>
    requires WellFormed(s) && n < |s|
  {
    match FindChildByType(s, n, Finally)
    case None => []
    case Some(f) =>
      if HasChildOfKind(s, f, FinallyKeyword) && MisplacedWhiteSpace(s, f).Some?
      then [Violation(s[FindChildByType(s, f, FinallyKeyword).value].start, Message(FinallyClause), true)]
      else []
  }

  /** With nothing approved, one CATCH clause reports as CatchLint says. */
  lemma CatchUnapproved(s: seq<Node>, c: nat, indent: string, approve: Violation -> bool)
    requires WellFormed(s) && c < |s| && s[c].kind == Catch
    requires forall v :: !approve(v)
    ensures CheckCatch(s, c, indent, approve) == Outcome(s, CatchLint(s, c))
  {
    var r := CheckCatch(s, c, indent, approve);
    if r.emitted != [] {
      assert !approve(r.emitted[0]);
    }
  }

  /** With nothing approved, the CATCH loop over the CATCH children of `cs`
      reports what ChildrenLint lists. */
  lemma {:induction false} CatchesLint(s: seq<Node>, cs: seq<nat>, indent: string, approve: Violation -> bool)
    requires WellFormed(s) && InArena(s, cs)
    requires forall v :: !approve(v)
    ensures CheckCatches(s, KindFilter(s, cs, Catch), indent, approve) == Outcome(s, ChildrenLint(s, cs))
    decreases |cs|
  {
    if cs != [] {
      var rest := KindFilter(s, cs[1..], Catch);
      CatchesLint(s, cs[1..], indent, approve);
      assert ChildrenLint(s, cs) == CatchLint(s, cs[0]) + ChildrenLint(s, cs[1..]);
      if s[cs[0]].kind == Catch {
        assert KindFilter(s, cs, Catch) == [cs[0]] + rest;
        CatchFirstUnapproved(s, cs[0], rest, indent, approve);
      } else {
        assert KindFilter(s, cs, Catch) == rest;
        assert CatchLint(s, cs[0]) == [];
      }
    }
  }

  /** With nothing approved, a first CATCH clause reports before the rest. */
  lemma CatchFirstUnapproved(s: seq<Node>, c: nat, rest: seq<nat>, indent: string, approve: Violation -> bool)
    requires WellFormed(s) && c < |s| && s[c].kind == Catch && InArena(s, rest)
    requires forall v :: !approve(v)
    ensures InArena(s, [c] + rest)
    ensures CheckCatches(s, [c] + rest, indent, approve) ==
      Outcome(CheckCatches(s, rest, indent, approve).tree,
              CatchLint(s, c) + CheckCatches(s, rest, indent, approve).emitted)
  {
    InArenaConcat(s, [c], rest);
    assert [] + [c] == [c];
    CheckCatchesLast(s, [], c, indent, approve);
    CatchUnapproved(s, c, indent, approve);
    assert CheckCatches(s, [c], indent, approve) == Outcome(s, CatchLint(s, c));
    CatchesCompose(s, [c], rest, indent, approve);
  }

  /** With nothing approved, a TRY reports, in child order, one violation at
      the `catch` keyword of each CATCH clause preceded by misplaced
      whitespace, then one at the `finally` keyword if the FINALLY clause is,
      and the tree is left as it was. */
  lemma TryLint(s: seq<Node>, n: nat, indent: string, approve: Violation -> bool)
    requires WellFormed(s) && n < |s| && s[n].kind == Try
    requires forall v :: !approve(v)
    ensures Visit(s, n, indent, approve) == Outcome(s, ChildrenLint(s, s[n].children) + FinallyLint(s, n))
  {
    CatchesLint(s, s[n].children, indent, approve);
    var f := CheckFinally(s, n, indent, approve);
    if f.emitted != [] {
      assert !approve(f.emitted[0]);
    }
  }

  // ---------------------------------------------------------------------
  // Corrections

  /** `t` differs from `s` at most by corrections: a node whose text changed
      was a whitespace leaf that did not start a new line, and now holds a
      line break and the indentation. */
  predicate OnlyCorrected(s: seq<Node>, t: seq<Node>, indent: string)
  {
    SameShape(s, t) &&
    forall i :: 0 <= i < |s| && t[i].text != s[i].text ==>
      IsLeaf(s[i]) && IsWhiteSpace(s[i].text) && !StartsWithLineBreak(s[i].text) &&
      t[i].text == Correction(indent)
  }

  lemma OnlyCorrectedTrans(s: seq<Node>, t: seq<Node>, u: seq<Node>, indent: string)
    requires OnlyCorrected(s, t, indent) && OnlyCorrected(t, u, indent)
    ensures OnlyCorrected(s, u, indent)
  {
    forall i | 0 <= i < |s| && u[i].text != s[i].text
      ensures IsLeaf(s[i]) && IsWhiteSpace(s[i].text) && !StartsWithLineBreak(s[i].text) &&
              u[i].text == Correction(indent)
    {
      if t[i].text != s[i].text {
        assert u[i].text == t[i].text;
      }
    }
  }

  /** A keyword check rewrites the whitespace before its clause exactly when
      it reported a violation, the host approved it and the whitespace is a
      leaf; the new text is a line break and the indentation. */
  lemma CheckKeywordCorrects(s: seq<Node>, anchor: nat, keyword: nat, c: Continuation,
                             indent: string, approve: Violation -> bool)
    requires WellFormed(s) && anchor < |s| && keyword < |s|
    ensures var r := CheckKeyword(s, anchor, keyword, c, indent, approve);
      && OnlyCorrected(s, r.tree, indent)
      && (r.emitted != [] ==>
            var w := s[anchor].prev.value;
            if approve(r.emitted[0]) && IsLeaf(s[w]) then r.tree == ReplaceText(s, w, Correction(indent))
            else r.tree == s)
  {
  }

  lemma {:induction false} CatchesOnlyCorrect(s: seq<Node>, cs: seq<nat>, indent: string, approve: Violation -> bool)
    requires WellFormed(s) && InArena(s, cs)
    ensures OnlyCorrected(s, CheckCatches(s, cs, indent, approve).tree, indent)
    decreases |cs|
  {
    if cs != [] {
      var init := cs[..|cs| - 1];
      var last := cs[|cs| - 1];
      var o := CheckCatches(s, init, indent, approve);
      CatchesOnlyCorrect(s, init, indent, approve);
      var o' := CheckCatch(o.tree, last, indent, approve);
      var kw := FindChildByType(o.tree, last, CatchKeyword);
      if kw.Some? {
        CheckKeywordCorrects(o.tree, last, kw.value, CatchClause, indent, approve);
      }
      OnlyCorrectedTrans(s, o.tree, o'.tree, indent);
    }
  }

  lemma TryOnlyCorrects(s: seq<Node>, n: nat, indent: string, approve: Violation -> bool)
    requires WellFormed(s) && n < |s|
    ensures OnlyCorrected(s, CheckTry(s, n, indent, approve).tree, indent)
  {
    var o := CheckCatches(s, CatchClauses(s, n), indent, approve);
    CatchesOnlyCorrect(s, CatchClauses(s, n), indent, approve);
    var f := FindChildByType(o.tree, n, Finally);
    if f.Some? {
      var fk := FindChildByType(o.tree, f.value, FinallyKeyword);
      if fk.Some? {
        CheckKeywordCorrects(o.tree, f.value, fk.value, FinallyClause, indent, approve);
      }
    }
    OnlyCorrectedTrans(s, o.tree, CheckFinally(o.tree, n, indent, approve).tree, indent);
  }

  /** A visit changes nothing but the text of misplaced whitespace leaves,
      each of which becomes a line break followed by the indentation; every
      node keeps its element type, children and siblings. */
  lemma VisitOnlyCorrects(s: seq<Node>, n: nat, indent: string, approve: Violation -> bool)
    requires WellFormed(s) && n < |s|
    ensures OnlyCorrected(s, Visit(s, n, indent, approve).tree, indent)
  {
    if s[n].kind == Try {
      TryOnlyCorrects(s, n, indent, approve);
    } else if s[n].kind == If {
      var kw := ElseKeywordToCheck(s, n);
      if kw.Some? {
        CheckKeywordCorrects(s, kw.value, kw.value, ElseClause, indent, approve);
      }
    }
  }

  lemma {:induction false} CatchesUnapproved(s: seq<Node>, cs: seq<nat>, indent: string, approve: Violation -> bool)
    requires WellFormed(s) && InArena(s, cs)
    requires forall v :: !approve(v)
    ensures CheckCatches(s, cs, indent, approve).tree == s
    decreases |cs|
  {
    if cs != [] {
      CatchesUnapproved(s, cs[..|cs| - 1], indent, approve);
    }
  }

  /** When the host approves nothing (lint without format), the tree is left
      as it was. */
  lemma VisitUnapproved(s: seq<Node>, n: nat, indent: string, approve: Violation -> bool)
    requires WellFormed(s) && n < |s|
    requires forall v :: !approve(v)
    ensures Visit(s, n, indent, approve).tree == s
  {
    if s[n].kind == Try {
      CatchesUnapproved(s, CatchClauses(s, n), indent, approve);
    }
  }

  // ---------------------------------------------------------------------
  // Idempotence

  /** The whitespace before `anchor` does not call for a violation. */
  predicate Settled(s: seq<Node>, anchor: nat)
    requires WellFormed(s) && anchor < |s|
  {
    MisplacedWhiteSpace(s, anchor).None?
  }

  /** Every whitespace node is a leaf, so every approved correction applies. */
  predicate WhiteSpaceLeaves(s: seq<Node>)
  {
    forall i :: 0 <= i < |s| && IsWhiteSpace(s[i].text) ==> IsLeaf(s[i])
  }

  /** `t` has the shape of `s`, keeps its whitespace leaves, and leaves
      settled every anchor that was settled in `s`. */
  predicate Progress(s: seq<Node>, t: seq<Node>)
  {
    WellFormed(s) && WellFormed(t) && SameShape(s, t) &&
    (WhiteSpaceLeaves(s) ==> WhiteSpaceLeaves(t)) &&
    forall x :: 0 <= x < |s| && Settled(s, x) ==> Settled(t, x)
  }

  lemma ProgressTrans(s: seq<Node>, t: seq<Node>, u: seq<Node>)
    requires Progress(s, t) && Progress(t, u)
    ensures Progress(s, u)
  {
  }

  /** A correction settles the clause it was made for and unsettles none. */
  lemma CorrectionProgress(s: seq<Node>, w: nat, indent: string)
    requires WellFormed(s) && w < |s| && IsLeaf(s[w])
    ensures Progress(s, ReplaceText(s, w, Correction(indent)))
    ensures forall x :: 0 <= x < |s| && s[x].prev == Some(w) ==>
      Settled(ReplaceText(s, w, Correction(indent)), x)
  {
    var t := ReplaceText(s, w, Correction(indent));
    forall x | 0 <= x < |s| && (Settled(s, x) || s[x].prev == Some(w))
      ensures Settled(t, x)
    {
      if s[x].prev == Some(w) {
        assert StartsWithLineBreak(t[w].text);
      } else if s[x].prev.Some? {
        assert t[s[x].prev.value].text == s[s[x].prev.value].text;
      }
    }
  }

  /** With every violation approved, one keyword check settles its clause. */
  lemma CheckKeywordSettles(s: seq<Node>, anchor: nat, keyword: nat, c: Continuation,
                            indent: string, approve: Violation -> bool)
    requires WellFormed(s) && anchor < |s| && keyword < |s|
    requires WhiteSpaceLeaves(s) && forall v :: approve(v)
    ensures var t := CheckKeyword(s, anchor, keyword, c, indent, approve).tree;
      Progress(s, t) && Settled(t, anchor)
  {
    var r := CheckKeyword(s, anchor, keyword, c, indent, approve);
    if r.emitted != [] {
      var w := s[anchor].prev.value;
      assert approve(r.emitted[0]);
      CorrectionProgress(s, w, indent);
    }
  }

  /** A settled clause yields nothing and leaves the tree unchanged. */
  lemma SettledKeywordQuiet(s: seq<Node>, anchor: nat, keyword: nat, c: Continuation,
                            indent: string, approve: Violation -> bool)
    requires WellFormed(s) && anchor < |s| && keyword < |s| && Settled(s, anchor)
    ensures CheckKeyword(s, anchor, keyword, c, indent, approve) == Outcome(s, [])
  {
  }

  lemma {:induction false} CatchesSettle(s: seq<Node>, cs: seq<nat>, indent: string, approve: Violation -> bool)
    requires WellFormed(s) && InArena(s, cs)
    requires WhiteSpaceLeaves(s) && forall v :: approve(v)
    ensures var t := CheckCatches(s, cs, indent, approve).tree;
      Progress(s, t) &&
      forall j :: 0 <= j < |cs| && HasChildOfKind(s, cs[j], CatchKeyword) ==> Settled(t, cs[j])
    decreases |cs|
  {
    var t := CheckCatches(s, cs, indent, approve).tree;
    if cs != [] {
      var init := cs[..|cs| - 1];
      var last := cs[|cs| - 1];
      var o := CheckCatches(s, init, indent, approve);
      CatchesSettle(s, init, indent, approve);
      var o' := CheckCatch(o.tree, last, indent, approve);
      assert t == o'.tree;
      FindChildSameShape(s, o.tree, last, CatchKeyword);
      var kw := FindChildByType(o.tree, last, CatchKeyword);
      if kw.Some? {
        CheckKeywordSettles(o.tree, last, kw.value, CatchClause, indent, approve);
      }
      ProgressTrans(s, o.tree, t);
      forall j | 0 <= j < |cs| && HasChildOfKind(s, cs[j], CatchKeyword)
        ensures Settled(t, cs[j])
      {
        if j < |cs| - 1 {
          assert cs[j] == init[j];
        }
      }
    }
  }

  lemma {:induction false} SettledCatchesQuiet(t: seq<Node>, cs: seq<nat>, indent: string, approve: Violation -> bool)
    requires WellFormed(t) && InArena(t, cs)
    requires forall j :: 0 <= j < |cs| && HasChildOfKind(t, cs[j], CatchKeyword) ==> Settled(t, cs[j])
    ensures CheckCatches(t, cs, indent, approve) == Outcome(t, [])
    decreases |cs|
  {
    if cs != [] {
      var init := cs[..|cs| - 1];
      forall j | 0 <= j < |init| && HasChildOfKind(t, init[j], CatchKeyword)
        ensures Settled(t, init[j])
      {
        assert init[j] == cs[j];
      }
      SettledCatchesQuiet(t, init, indent, approve);
      assert HasChildOfKind(t, cs[|cs| - 1], CatchKeyword) ==> Settled(t, cs[|cs| - 1]);
    }
  }

  lemma {:induction false} KindFilterSameShape(s: seq<Node>, t: seq<Node>, cs: seq<nat>, k: Kind)
    requires SameShape(s, t) && InArena(s, cs)
    ensures KindFilter(s, cs, k) == KindFilter(t, cs, k)
    decreases |cs|
  {
    if cs != [] {
      KindFilterSameShape(s, t, cs[1..], k);
    }
  }

  /** ThenHasBlock depends on the shape of the tree only. */
  lemma ThenHasBlockSameShape(s: seq<Node>, t: seq<Node>, n: nat)
    requires WellFormed(s) && WellFormed(t) && SameShape(s, t) && n < |s|
    ensures ThenHasBlock(s, n) == ThenHasBlock(t, n)
  {
    FindChildSameShape(s, t, n, Then);
    var th := FindChildByType(s, n, Then);
    if th.Some? {
      FindChildSameShape(s, t, th.value, Block);
    }
  }

  /** The exemption checks of an IF depend on the shape of the tree only. */
  lemma ElseKeywordSameShape(s: seq<Node>, t: seq<Node>, n: nat)
    requires WellFormed(s) && WellFormed(t) && SameShape(s, t) && n < |s|
    ensures ElseKeywordToCheck(s, n) == ElseKeywordToCheck(t, n)
  {
    FindChildSameShape(s, t, n, Else);
    FindChildSameShape(s, t, n, ElseKeyword);
    ThenHasBlockSameShape(s, t, n);
    var e := FindChildByType(s, n, Else);
    if e.Some? {
      ElseContentSameShape(s, t, e.value);
    }
  }

  lemma ElseContentSameShape(s: seq<Node>, t: seq<Node>, e: nat)
    requires WellFormed(s) && WellFormed(t) && SameShape(s, t) && e < |s|
    ensures ElseContentQualifies(s, e) == ElseContentQualifies(t, e)
  {
    if s[e].children != [] {
      ThenHasBlockSameShape(s, t, s[e].children[0]);
    }
  }

  lemma IfIdempotent(s: seq<Node>, n: nat, indent: string, approve: Violation -> bool)
    requires WellFormed(s) && n < |s|
    requires WhiteSpaceLeaves(s) && forall v :: approve(v)
    ensures var t := CheckIf(s, n, indent, approve).tree;
      CheckIf(t, n, indent, approve) == Outcome(t, [])
  {
    var t := CheckIf(s, n, indent, approve).tree;
    ElseKeywordSameShape(s, t, n);
    var kw := ElseKeywordToCheck(s, n);
    if kw.Some? {
      CheckKeywordSettles(s, kw.value, kw.value, ElseClause, indent, approve);
      SettledKeywordQuiet(t, kw.value, kw.value, ElseClause, indent, approve);
    }
  }

  /** With every violation approved, the FINALLY check settles its clause. */
  lemma FinallySettles(s: seq<Node>, n: nat, indent: string, approve: Violation -> bool)
    requires WellFormed(s) && n < |s|
    requires WhiteSpaceLeaves(s) && forall v :: approve(v)
    ensures var t := CheckFinally(s, n, indent, approve).tree;
      Progress(s, t) && CheckFinally(t, n, indent, approve) == Outcome(t, [])
  {
    var t := CheckFinally(s, n, indent, approve).tree;
    FindChildSameShape(s, t, n, Finally);
    var f := FindChildByType(s, n, Finally);
    if f.Some? {
      FindChildSameShape(s, t, f.value, FinallyKeyword);
      var fk := FindChildByType(s, f.value, FinallyKeyword);
      if fk.Some? {
        CheckKeywordSettles(s, f.value, fk.value, FinallyClause, indent, approve);
        SettledKeywordQuiet(t, f.value, fk.value, FinallyClause, indent, approve);
      }
    }
  }

  lemma TryIdempotent(s: seq<Node>, n: nat, indent: string, approve: Violation -> bool)
    requires WellFormed(s) && n < |s|
    requires WhiteSpaceLeaves(s) && forall v :: approve(v)
    ensures var t := CheckTry(s, n, indent, approve).tree;
      CheckTry(t, n, indent, approve) == Outcome(t, [])
  {
    var t := CheckTry(s, n, indent, approve).tree;
    var cs := CatchClauses(s, n);
    var o := CheckCatches(s, cs, indent, approve);
    CatchesSettle(s, cs, indent, approve);
    FinallySettles(o.tree, n, indent, approve);
    assert t == CheckFinally(o.tree, n, indent, approve).tree;
    ProgressTrans(s, o.tree, t);
    KindFilterSameShape(s, t, s[n].children, Catch);
    assert CatchClauses(t, n) == cs;
    forall j | 0 <= j < |cs| && HasChildOfKind(t, cs[j], CatchKeyword)
      ensures Settled(t, cs[j])
    {
      FindChildSameShape(s, t, cs[j], CatchKeyword);
      assert Settled(o.tree, cs[j]);
    }
    SettledCatchesQuiet(t, cs, indent, approve);
  }

  /** Visiting the node again after every violation was approved and
      corrected reports nothing and changes nothing. */
  lemma VisitIdempotent(s: seq<Node>, n: nat, indent: string, approve: Violation -> bool)
    requires WellFormed(s) && n < |s|
    requires WhiteSpaceLeaves(s) && forall v :: approve(v)
    ensures var t := Visit(s, n, indent, approve).tree;
      Visit(t, n, indent, approve) == Outcome(t, [])
  {
    if s[n].kind == If {
      IfIdempotent(s, n, indent, approve);
    } else if s[n].kind == Try {
      TryIdempotent(s, n, indent, approve);
    }
  }
}
