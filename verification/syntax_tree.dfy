/** The part of the host's syntax tree that the rule navigates, as an arena:
    nodes are referred to by their index in a sequence (a snapshot) or in an
    array (the live tree that a correction rewrites). */
module SyntaxTree {

  datatype Option<T> = None | Some(value: T)

  /** The element types the rule tells apart; every other element type is Other. */
  datatype Kind =
    | If | Try | Catch | Finally | Block | Then | Else
    | ElseKeyword | CatchKeyword | FinallyKeyword
    | Other

  /** A tree node: its element type, its text, its start offset in the file,
      the indices of its children in order, and the index of its previous
      sibling (`treePrev`), if any. */
  datatype Node = Node(kind: Kind, text: string, start: int, children: seq<nat>, prev: Option<nat>)

  /** Every child and previous-sibling index names a node of the arena. */
  predicate WellFormed(s: seq<Node>)
  {
    (forall i, k :: 0 <= i < |s| && 0 <= k < |s[i].children| ==> s[i].children[k] < |s|) &&
    (forall i :: 0 <= i < |s| && s[i].prev.Some? ==> s[i].prev.value < |s|)
  }

  /** A node with no children stands for a leaf element of the host tree. */
  predicate IsLeaf(n: Node)
  {
    n.children == []
  }

  /** `t` has the same nodes as `s`, with the same element types, children
      and siblings: only texts and offsets may differ. */
  predicate SameShape(s: seq<Node>, t: seq<Node>)
  {
    |s| == |t| &&
    forall i :: 0 <= i < |s| ==>
      s[i].kind == t[i].kind && s[i].children == t[i].children && s[i].prev == t[i].prev
  }

  /** Every index in `cs` names a node of the arena. */
  predicate InArena(s: seq<Node>, cs: seq<nat>)
  {
    forall j :: 0 <= j < |cs| ==> cs[j] < |s|
  }

  /** Node `n` has some child of element type `k`. */
  predicate HasChildOfKind(s: seq<Node>, n: nat, k: Kind)
    requires n < |s|
  {
    exists c :: c in s[n].children && c < |s| && s[c].kind == k
  }

  /** The position in `cs` of the first node of element type `k`. */
  function FirstOfKind(s: seq<Node>, cs: seq<nat>, k: Kind): (r: Option<nat>)
    requires InArena(s, cs)
    ensures r.Some? ==> r.value < |cs| && s[cs[r.value]].kind == k
    ensures r.Some? ==> forall j :: 0 <= j < r.value ==> s[cs[j]].kind != k
    ensures r.None? ==> forall j :: 0 <= j < |cs| ==> s[cs[j]].kind != k
    decreases |cs|
  {
    if cs == [] then None
    else if s[cs[0]].kind == k then Some(0)
    else match FirstOfKind(s, cs[1..], k)
      case None => None
      case Some(i) => Some(i + 1)
  }

  /** `findChildByType`: the first child of `n` whose element type is `k`,
      or None when `n` has no such child. */
  function FindChildByType(s: seq<Node>, n: nat, k: Kind): (r: Option<nat>)
    requires WellFormed(s) && n < |s|
    ensures r.Some? <==> HasChildOfKind(s, n, k)
    ensures r.Some? ==> r.value < |s| && s[r.value].kind == k
    ensures r.Some? ==>
      exists i :: 0 <= i < |s[n].children| && s[n].children[i] == r.value &&
        forall j :: 0 <= j < i ==> s[s[n].children[j]].kind != k
  {
    var cs := s[n].children;
    match FirstOfKind(s, cs, k)
    case None => None
    case Some(i) => Some(cs[i])
  }

  /** Lookups by element type give the same answer on trees of the same shape. */
  lemma {:induction false} FirstOfKindSameShape(s: seq<Node>, t: seq<Node>, cs: seq<nat>, k: Kind)
    requires SameShape(s, t)
    requires InArena(s, cs)
    ensures FirstOfKind(s, cs, k) == FirstOfKind(t, cs, k)
    decreases |cs|
  {
    if cs != [] {
      FirstOfKindSameShape(s, t, cs[1..], k);
    }
  }

  lemma FindChildSameShape(s: seq<Node>, t: seq<Node>, n: nat, k: Kind)
    requires WellFormed(s) && WellFormed(t) && SameShape(s, t) && n < |s|
    ensures FindChildByType(s, n, k) == FindChildByType(t, n, k)
  {
    FirstOfKindSameShape(s, t, s[n].children, k);
  }

  /** `rawReplaceWithText` on node `w`: its text becomes `text`. The host
      derives offsets from the text lengths, so every node that starts after
      `w` moves by the change in length; nothing else changes. */
  function ReplaceText(s: seq<Node>, w: nat, text: string): (r: seq<Node>)
    requires WellFormed(s) && w < |s|
    ensures WellFormed(r) && SameShape(s, r)
    ensures r[w].text == text && r[w].start == s[w].start
    ensures forall i :: 0 <= i < |s| && i != w ==> r[i].text == s[i].text
    ensures forall i :: 0 <= i < |s| && s[i].start <= s[w].start ==> r[i].start == s[i].start
    // the gap between the end of `w` and every node after it is kept
    ensures forall i :: 0 <= i < |s| && s[i].start > s[w].start ==>
      r[i].start - (r[w].start + |r[w].text|) == s[i].start - (s[w].start + |s[w].text|)
  {
    var delta := |text| - |s[w].text|;
    seq(|s|, i requires 0 <= i < |s| =>
      var moved := if s[i].start > s[w].start then s[i].(start := s[i].start + delta) else s[i];
      if i == w then moved.(text := text) else moved)
  }

  /** The in-place form of ReplaceText on the live tree. */
  method RawReplaceWithText(a: array<Node>, w: nat, text: string)
    requires WellFormed(a[..]) && w < a.Length
    modifies a
    ensures a[..] == ReplaceText(old(a[..]), w, text)
  {
    var at := a[w].start;
    var delta := |text| - |a[w].text|;
    forall j | 0 <= j < a.Length && a[j].start > at {
      a[j] := a[j].(start := a[j].start + delta);
    }
    a[w] := a[w].(text := text);
  }
}
