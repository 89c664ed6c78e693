/**
 * The structural edit helpers `replace_cast`, `remove_expr` and `remove_line`
 * (strip_type_hints.py:33-59). Each looks at the shape around the node it is given
 * and then removes or replaces nodes. A spec function gives the outcome and the new
 * tree for every input, crashes included; the methods work on the mutable tree and
 * are proved against it.
 */
module Edits {
  import opened Wrappers
  import opened SyntaxTree

  /** What an edit did: how it ended, and the tree it left. */
  datatype Edit = Edit(outcome: Outcome, tree: Node)

  /** `node.remove()`: a node without a parent stays where it is. */
  function RemoveNode(t: Node, p: Path): Node
    requires ValidPath(t, p)
  {
    if p == [] then t else RemoveAt(t, p)
  }

  /** `node.replace(list)`: lib2to3 asserts that the node has a parent. */
  function ReplaceWith(t: Node, p: Path, ns: seq<Node>): Edit
    requires ValidPath(t, p)
  {
    if p == [] then Edit(Raised(AssertionError), t) else Edit(Completed, ReplaceAt(t, p, ns))
  }

  // ---------------------------------------------------------------------------
  // The attribute-trailer loop shared by replace_cast and the rename at line 295

  /** A `.name` trailer. */
  predicate IsDotTrailer(n: Node) {
    IsBranch(n, trailer) && n.children != [] && IsToken(n.children[0], DOT)
  }

  /** A trailer whose first child the loop cannot read. */
  predicate IsEmptyTrailer(n: Node) {
    IsBranch(n, trailer) && n.children == []
  }

  /**
   * Where `while children[i].type == trailer and children[i].children[0].type == DOT:
   * i += 1` stops when started at `i`, or None when it raises IndexError.
   */
  function TrailerRunEnd(cs: seq<Node>, i: nat): (r: Option<nat>)
    ensures r.Some? ==> i <= r.value < |cs|
    ensures r.Some? ==> !IsDotTrailer(cs[r.value]) && !IsEmptyTrailer(cs[r.value])
    ensures r.Some? ==> forall k :: i <= k < r.value ==> IsDotTrailer(cs[k])
    ensures r.None? ==> forall k :: i <= k < |cs| && (forall j :: i <= j < k ==> IsDotTrailer(cs[j])) ==>
      IsDotTrailer(cs[k]) || IsEmptyTrailer(cs[k])
    decreases |cs| - i
  {
    if i >= |cs| || IsEmptyTrailer(cs[i]) then None
    else if IsDotTrailer(cs[i]) then TrailerRunEnd(cs, i + 1)
    else Some(i)
  }

  /**
   * The loop as evidently intended: it stops at the end of the child list instead of
   * reading past it, so the run may end at `|cs|` (an empty trailer still cannot be read).
   */
  function AttributeRunEnd(cs: seq<Node>, i: nat): (r: Option<nat>)
    ensures r.Some? ==> i <= r.value && (r.value <= |cs| || r.value == i)
    ensures r.Some? ==> forall k :: i <= k < r.value && k < |cs| ==> IsDotTrailer(cs[k])
    ensures r.Some? && r.value < |cs| ==> !IsDotTrailer(cs[r.value]) && !IsEmptyTrailer(cs[r.value])
    ensures r.None? <==> exists k :: i <= k < |cs| && IsEmptyTrailer(cs[k]) && forall j :: i <= j < k ==> IsDotTrailer(cs[j])
    decreases |cs| - i
  {
    if i >= |cs| then Some(i)
    else if IsEmptyTrailer(cs[i]) then None
    else if IsDotTrailer(cs[i]) then AttributeRunEnd(cs, i + 1)
    else Some(i)
  }

  /** Wherever the loop as written stops, the bounded loop stops at the same index. */
  lemma {:induction false} TrailerRunAgrees(cs: seq<Node>, i: nat)
    requires TrailerRunEnd(cs, i).Some?
    ensures AttributeRunEnd(cs, i) == TrailerRunEnd(cs, i)
    decreases |cs| - i
  {
    if i < |cs| && IsDotTrailer(cs[i]) {
      TrailerRunAgrees(cs, i + 1);
    }
  }

  /** The bounded loop, started at index 1 as both call sites do. */
  method SkipDotTrailers(cs: seq<Node>) returns (r: Option<nat>)
    ensures r == AttributeRunEnd(cs, 1)
  {
    var i := 1;
    while i < |cs| && IsDotTrailer(cs[i])
      invariant 1 <= i
      invariant AttributeRunEnd(cs, i) == AttributeRunEnd(cs, 1)
      decreases |cs| - i
    {
      i := i + 1;
    }
    if i < |cs| && IsEmptyTrailer(cs[i]) {
      return None;
    }
    return Some(i);
  }

  /** `head.name` with nothing after it, as in the annotation of `def f(x: typing.AbstractSet)`. */
  function BareAttributeUse(head: string, name: string): Node {
    Branch(power, [Leaf(NAME, head, ""), Branch(trailer, [Leaf(DOT, ".", ""), Leaf(NAME, name, "")])])
  }

  // ---------------------------------------------------------------------------
  // replace_cast

  datatype CastPlan =
    | CastCrash(error: PyError)
    | NotACall                   // the node is left as it is
    | Unwrap(expression: Node)   // the node is replaced by the cast's second argument

  /** What `replace_cast` decides for the node `n`, with the loop as written (line 35). */
  function PlanCastAsWritten(n: Node): CastPlan {
    match TrailerRunEnd(Children(n), 1)
    case None => CastCrash(IndexError)
    case Some(i) => PlanCall(n.children[i])
  }

  /** Lines 38-41: the trailer after the attribute run must be a call with an argument list. */
  function PlanCall(call: Node): CastPlan {
    if !(IsBranch(call, trailer) && |call.children| == 3 && IsToken(call.children[0], LPAR)) then NotACall
    else if |Children(call.children[1])| < 3 then CastCrash(IndexError)
    else Unwrap(call.children[1].children[2])
  }

  /** What `replace_cast` decides, with the bounded loop: a use with no call after it is left alone. */
  function PlanCast(n: Node): CastPlan {
    match AttributeRunEnd(Children(n), 1)
    case None => CastCrash(IndexError)
    case Some(i) => if i < |Children(n)| then PlanCall(n.children[i]) else NotACall
  }

  /** `typing.cast` used without a call: the loop as written reads past the last child. */
  lemma {:induction false} BareCastRaises(head: string)
    ensures PlanCastAsWritten(BareAttributeUse(head, "cast")) == CastCrash(IndexError)
  {
    var cs := Children(BareAttributeUse(head, "cast"));
    assert IsDotTrailer(cs[1]);
    assert TrailerRunEnd(cs, 2) == None;
  }

  /** With the bounded loop the same use is left alone. */
  lemma {:induction false} BareCastUntouched(head: string)
    ensures PlanCast(BareAttributeUse(head, "cast")) == NotACall
  {
    var cs := Children(BareAttributeUse(head, "cast"));
    assert IsDotTrailer(cs[1]);
    assert AttributeRunEnd(cs, 2) == Some(2);
  }

  /** Wherever the code as written does not crash in its loop, the bounded loop decides the same. */
  lemma {:induction false} PlanCastAgrees(n: Node)
    requires TrailerRunEnd(Children(n), 1).Some?
    ensures PlanCast(n) == PlanCastAsWritten(n)
  {
    TrailerRunAgrees(Children(n), 1);
  }

  function ReplaceCastEdit(t: Node, p: Path): Edit
    requires ValidPath(t, p)
  {
    match PlanCast(At(t, p))
    case CastCrash(e) => Edit(Raised(e), t)
    case NotACall => Edit(Completed, t)
    case Unwrap(e) => ReplaceWith(t, p, [e])
  }

  /** `cast(T, e)` (or `typing.cast(T, e)`) becomes `e`; nothing else is touched. */
  lemma {:induction false} CastUnwrapsSecondArgument(t: Node, p: Path, ty: Node, comma: Node, e: Node)
    requires ValidPath(t, p) && p != []
    requires var n := At(t, p);
      && n.Branch? && |n.children| >= 2 && !IsDotTrailer(n.children[1])
      && n.children[1] == Branch(trailer, [Leaf(LPAR, "(", ""), Branch(arglist, [ty, comma, e]), Leaf(RPAR, ")", "")])
    ensures ReplaceCastEdit(t, p) == Edit(Completed, ReplaceAt(t, p, [e]))
  {
  }

  /** Without a call trailer `( ... )` of three children after the attribute run, the tree is unchanged. */
  lemma {:induction false} CastNeedsCallTrailer(t: Node, p: Path)
    requires ValidPath(t, p)
    requires var n := At(t, p); var i := AttributeRunEnd(Children(n), 1);
      i.Some? && (i.value < |Children(n)| ==> !(|Children(n.children[i.value])| == 3 && IsToken(n.children[i.value].children[0], LPAR)))
    ensures ReplaceCastEdit(t, p) == Edit(Completed, t)
  {
  }

  method ReplaceCast(tree: Tree, p: Path) returns (o: Outcome)
    requires ValidPath(tree.root, p)
    modifies tree
    ensures Edit(o, tree.root) == ReplaceCastEdit(old(tree.root), p)
  {
    var node := At(tree.root, p);
    var i := SkipDotTrailers(Children(node));
    if i.None? {
      return Raised(IndexError);
    }
    if i.value >= |Children(node)| {
      return Completed;
    }
    var call := node.children[i.value];
    if !(IsBranch(call, trailer) && |call.children| == 3 && IsToken(call.children[0], LPAR)) {
      return Completed;
    }
    if |Children(call.children[1])| < 3 {
      return Raised(IndexError);
    }
    var expression := call.children[1].children[2];
    if p == [] {
      return Raised(AssertionError);
    }
    tree.Replace(p, [expression]);
    return Completed;
  }

  // ---------------------------------------------------------------------------
  // remove_expr

  function RemoveExprEdit(t: Node, p: Path): Edit
    requires ValidPath(t, p)
  {
    if p == [] then Edit(Raised(AttributeError), t)
    else
      ParentOf(t, p);
      var parent := At(t, Parent(p));
      var i := Index(p);
      if parent.symbol == arglist then
        if i > 0 && IsToken(parent.children[i - 1], COMMA) then
          var comma := Parent(p) + [i - 1];
          ChildPath(t, Parent(p), i - 1);
          assert Parent(comma) == Parent(p) && Index(comma) == i - 1;
          RemoveAtEffect(t, comma);
          ChildPath(RemoveAt(t, comma), Parent(p), i - 1);
          Edit(Completed, RemoveAt(RemoveAt(t, comma), comma))
        else Edit(Completed, RemoveAt(t, p))
      else if parent.symbol == expr_stmt then
        if |p| < 2 then Edit(Raised(AttributeError), t)
        else
          PrefixValid(t, p, |p| - 2);
          Edit(Completed, RemoveNode(t, p[..|p| - 2]))
      else Edit(Completed, RemoveAt(t, p))
  }

  /**
   * Removing the previous sibling of a node and then the node (which has moved into
   * the sibling's slot) drops both from the child list.
   */
  lemma {:induction false} RemovePreviousThenNode(t: Node, p: Path)
    requires ValidPath(t, p) && p != []
    requires ValidPath(t, Parent(p)) && At(t, Parent(p)).Branch?
    requires 0 < Index(p) < |At(t, Parent(p)).children|
    ensures var q := Parent(p);
      var before := At(t, q).children;
      var i := Index(p);
      var comma := q + [i - 1];
      && ValidPath(t, comma)
      && ValidPath(RemoveAt(t, comma), comma)
      && var r := RemoveAt(RemoveAt(t, comma), comma);
      && ValidPath(r, q)
      && At(r, q) == Branch(At(t, q).symbol, before[..i - 1] + before[i + 1..])
  {
    var q := Parent(p);
    var before := At(t, q).children;
    var i := Index(p);
    var comma := q + [i - 1];
    ChildPath(t, q, i - 1);
    assert Parent(comma) == q && Index(comma) == i - 1;
    RemoveAtEffect(t, comma);
    var t1 := RemoveAt(t, comma);
    var mid := At(t1, q).children;
    assert mid == before[..i - 1] + before[i..];
    ChildPath(t1, q, i - 1);
    RemoveAtEffect(t1, comma);
    assert mid[..i - 1] + mid[i..] == before[..i - 1] + before[i + 1..];
  }

  /**
   * Inside an argument list the node leaves together with a comma right in front of
   * it; the other arguments keep their order.
   */
  lemma {:induction false} RemoveExprInArglist(t: Node, p: Path)
    requires ValidPath(t, p) && p != []
    requires ValidPath(t, Parent(p)) && IsBranch(At(t, Parent(p)), arglist)
    ensures var before := At(t, Parent(p)).children;
      var i := Index(p);
      var r := RemoveExprEdit(t, p);
      && i < |before|
      && r.outcome == Completed
      && ValidPath(r.tree, Parent(p)) && IsBranch(At(r.tree, Parent(p)), arglist)
      && (if i > 0 && IsToken(before[i - 1], COMMA)
          then At(r.tree, Parent(p)).children == before[..i - 1] + before[i + 1..]
          else At(r.tree, Parent(p)).children == before[..i] + before[i + 1..])
  {
    ParentOf(t, p);
    var before := At(t, Parent(p)).children;
    var i := Index(p);
    if i > 0 && IsToken(before[i - 1], COMMA) {
      RemovePreviousThenNode(t, p);
    } else {
      RemoveAtEffect(t, p);
    }
  }

  /** Inside an expression statement the whole statement around it is removed. */
  lemma {:induction false} RemoveExprInExprStmt(t: Node, p: Path)
    requires ValidPath(t, p) && |p| >= 3
    requires ValidPath(t, Parent(p)) && IsBranch(At(t, Parent(p)), expr_stmt)
    ensures var g := p[..|p| - 2];
      && ValidPath(t, g)
      && RemoveExprEdit(t, p) == Edit(Completed, RemoveAt(t, g))
  {
    PrefixValid(t, p, |p| - 2);
  }

  method RemoveExpr(tree: Tree, p: Path) returns (o: Outcome)
    requires ValidPath(tree.root, p)
    modifies tree
    ensures Edit(o, tree.root) == RemoveExprEdit(old(tree.root), p)
  {
    if p == [] {
      return Raised(AttributeError);
    }
    ParentOf(tree.root, p);
    var parent := At(tree.root, Parent(p));
    var i := Index(p);
    if parent.symbol == arglist {
      if i > 0 && IsToken(parent.children[i - 1], COMMA) {
        var comma := Parent(p) + [i - 1];
        ChildPath(tree.root, Parent(p), i - 1);
        assert Parent(comma) == Parent(p) && Index(comma) == i - 1;
        RemoveAtEffect(tree.root, comma);
        tree.Remove(comma);
        ChildPath(tree.root, Parent(p), i - 1);
        tree.Remove(comma);
      } else {
        tree.Remove(p);
      }
    } else if parent.symbol == expr_stmt {
      if |p| < 2 {
        return Raised(AttributeError);
      }
      PrefixValid(tree.root, p, |p| - 2);
      tree.Remove(p[..|p| - 2]);
    } else {
      tree.Remove(p);
    }
    return Completed;
  }

  // ---------------------------------------------------------------------------
  // remove_line

  predicate IsStatementAt(t: Node, p: Path, k: nat)
    requires ValidPath(t, p) && k <= |p|
  {
    PrefixValid(t, p, k);
    IsBranch(At(t, p[..k]), simple_stmt)
  }

  /**
   * The length of the path to the nearest `simple_stmt` at or above depth `k` on the
   * way to the root, or None when the walk up runs past the root.
   */
  function EnclosingStatement(t: Node, p: Path, k: nat): (r: Option<nat>)
    requires ValidPath(t, p) && k <= |p|
    ensures r.Some? ==> r.value <= k && IsStatementAt(t, p, r.value)
    ensures r.Some? ==> forall m :: r.value < m <= k ==> !IsStatementAt(t, p, m)
    ensures r.None? ==> forall m :: 0 <= m <= k ==> !IsStatementAt(t, p, m)
    decreases k
  {
    if IsStatementAt(t, p, k) then Some(k)
    else if k == 0 then None
    else EnclosingStatement(t, p, k - 1)
  }

  /** `while node.type != simple_stmt: node = node.parent`. */
  method FindEnclosingStatement(t: Node, p: Path) returns (r: Option<nat>)
    requires ValidPath(t, p)
    ensures r == EnclosingStatement(t, p, |p|)
  {
    var k: nat := |p|;
    while !IsStatementAt(t, p, k)
      invariant k <= |p|
      invariant EnclosingStatement(t, p, k) == EnclosingStatement(t, p, |p|)
      decreases k
    {
      if k == 0 {
        return None;
      }
      k := k - 1;
    }
    return Some(k);
  }

  function RemoveLineEdit(t: Node, p: Path): Edit
    requires ValidPath(t, p)
  {
    match EnclosingStatement(t, p, |p|)
    case None => Edit(Raised(AttributeError), t)
    case Some(k) => PrefixValid(t, p, k); Edit(Completed, RemoveNode(t, p[..k]))
  }

  /** The removed line is the innermost statement around the node. */
  lemma {:induction false} RemoveLineRemovesInnermostStatement(t: Node, p: Path)
    requires ValidPath(t, p)
    requires exists m :: 0 <= m <= |p| && IsStatementAt(t, p, m)
    ensures RemoveLineEdit(t, p).outcome == Completed
    ensures var k := EnclosingStatement(t, p, |p|).value;
      && IsStatementAt(t, p, k)
      && (forall m :: k < m <= |p| ==> !IsStatementAt(t, p, m))
      && ValidPath(t, p[..k])
      && RemoveLineEdit(t, p).tree == RemoveNode(t, p[..k])
  {
    var k := EnclosingStatement(t, p, |p|).value;
    PrefixValid(t, p, k);
  }

  method RemoveLine(tree: Tree, p: Path) returns (o: Outcome)
    requires ValidPath(tree.root, p)
    modifies tree
    ensures Edit(o, tree.root) == RemoveLineEdit(old(tree.root), p)
  {
    var k := FindEnclosingStatement(tree.root, p);
    if k.None? {
      return Raised(AttributeError);
    }
    PrefixValid(tree.root, p, k.value);
    tree.Remove(p[..k.value]);
    return Completed;
  }
}
