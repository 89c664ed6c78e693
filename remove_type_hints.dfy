/**
 * The fixer `FixRemoveTypeHints` (strip_type_hints.py:321-338): a parameter annotation
 * `x: T` becomes `x`, and a return hint `-> T` is dropped from a `def`.
 */
module RemoveTypeHints {
  import opened Wrappers
  import opened SyntaxTree
  import opened Edits

  /** What the pattern of lines 323-327 captures. */
  datatype HintMatch =
    | NoHint
    | Annotated(name: Node)   // `tname< name=any ':' [any] >`
    | Returns(hint: Node)     // `funcdef< 'def' any any '->' hint=any ':' any >`

  /** `tname< name=any ':' [any] >`: a name, a colon and at most one annotation. */
  predicate IsAnnotatedName(n: Node) {
    IsBranch(n, tname) && 2 <= |n.children| <= 3 && IsLiteral(n.children[1], COLON, ":")
  }

  /** `funcdef< 'def' any any '->' hint=any ':' any >`: a `def` with a return hint. */
  predicate HasReturnHint(n: Node) {
    && IsBranch(n, funcdef) && |n.children| == 7
    && IsLiteral(n.children[0], NAME, "def")
    && IsLiteral(n.children[3], RARROW, "->")
    && IsLiteral(n.children[5], COLON, ":")
  }

  /** The fixer's `match`: the first alternative that fits, with its capture. */
  function MatchHint(n: Node): HintMatch {
    if IsAnnotatedName(n) then Annotated(n.children[0])
    else if HasReturnHint(n) then Returns(n.children[4])
    else NoHint
  }

  /** Lines 331-338: what `transform` does to the node at `p`. */
  function StripHintEdit(t: Node, p: Path): Edit
    requires ValidPath(t, p) && !MatchHint(At(t, p)).NoHint?
  {
    match MatchHint(At(t, p))
    case Annotated(name) => ReplaceWith(t, p, [name])
    case Returns(_) =>
      RemoveTwoSiblings(t, p, 3);
      Edit(Completed, RemoveAt(RemoveAt(t, p + [4]), p + [3]))
  }

  /** Lines 331-338 on the mutable tree. */
  method Transform(tree: Tree, p: Path) returns (o: Outcome)
    requires ValidPath(tree.root, p) && !MatchHint(At(tree.root, p)).NoHint?
    modifies tree
    ensures Edit(o, tree.root) == StripHintEdit(old(tree.root), p)
  {
    var node := At(tree.root, p);
    if IsAnnotatedName(node) {
      if p == [] {
        return Raised(AssertionError);
      }
      tree.Replace(p, [node.children[0]]);
      return Completed;
    }
    RemoveTwoSiblings(tree.root, p, 3);
    var hint := p + [4];
    var arrow := p + [3];
    tree.Remove(hint);
    tree.Remove(arrow);
    return Completed;
  }

  /** Removing the child `i + 1` and then the child `i` drops both from the child list. */
  lemma {:induction false} RemoveTwoSiblings(t: Node, p: Path, i: nat)
    requires ValidPath(t, p) && At(t, p).Branch? && i + 1 < |At(t, p).children|
    ensures ValidPath(t, p + [i + 1]) && ValidPath(RemoveAt(t, p + [i + 1]), p + [i])
    ensures var r := RemoveAt(RemoveAt(t, p + [i + 1]), p + [i]);
      var cs := At(t, p).children;
      && ValidPath(r, p) && At(r, p) == Branch(At(t, p).symbol, cs[..i] + cs[i + 2..])
  {
    var cs := At(t, p).children;
    ChildPath(t, p, i + 1);
    assert Parent(p + [i + 1]) == p && Index(p + [i + 1]) == i + 1;
    RemoveAtParent(t, p + [i + 1]);
    var t1 := RemoveAt(t, p + [i + 1]);
    var cs1 := At(t1, p).children;
    assert cs1 == cs[..i + 1] + cs[i + 2..];
    assert cs1[..i] == cs[..i] && cs1[i + 1..] == cs[i + 2..];
    ChildPath(t1, p, i);
    assert Parent(p + [i]) == p && Index(p + [i]) == i;
    RemoveAtParent(t1, p + [i]);
  }

  /** Both removals leave every node outside the `def` alone. */
  lemma {:induction false} TwoRemovalsElsewhere(t: Node, p: Path, q: Path)
    requires ValidPath(t, p) && HasReturnHint(At(t, p))
    requires ValidPath(t, q) && Disjoint(p, q)
    ensures ValidPath(t, p + [4]) && ValidPath(RemoveAt(t, p + [4]), p + [3])
    ensures var r := RemoveAt(RemoveAt(t, p + [4]), p + [3]);
      ValidPath(r, q) && At(r, q) == At(t, q)
  {
    RemoveTwoSiblings(t, p, 3);
    assert Parent(p + [4]) == p;
    RemoveAtEffect(t, p + [4]);
    var t1 := RemoveAt(t, p + [4]);
    assert Parent(p + [3]) == p;
    RemoveAtEffect(t1, p + [3]);
  }

  /**
   * A return hint: exactly the `->` and the hint leave the `def`, the other five
   * children keep their order, the `def` no longer has a hint, and nothing outside
   * the `def` changes.
   */
  lemma {:induction false} ReturnHintRemoved(t: Node, p: Path)
    requires ValidPath(t, p) && HasReturnHint(At(t, p))
    ensures var r := StripHintEdit(t, p);
      var cs := At(t, p).children;
      && r.outcome == Completed
      && ValidPath(r.tree, p)
      && At(r.tree, p) == Branch(funcdef, cs[..3] + cs[5..])
      && MatchHint(At(r.tree, p)) == NoHint
    ensures forall q :: ValidPath(t, q) && Disjoint(p, q) ==>
      ValidPath(StripHintEdit(t, p).tree, q) && At(StripHintEdit(t, p).tree, q) == At(t, q)
  {
    RemoveTwoSiblings(t, p, 3);
    var r := RemoveAt(RemoveAt(t, p + [4]), p + [3]);
    assert StripHintEdit(t, p) == Edit(Completed, r);
    assert |At(r, p).children| == 5;
    forall q | ValidPath(t, q) && Disjoint(p, q)
      ensures ValidPath(r, q) && At(r, q) == At(t, q)
    {
      TwoRemovalsElsewhere(t, p, q);
    }
  }

  /**
   * A parameter annotation: the `tname` node is replaced by its name, the siblings keep
   * their order, and a plain name left in its place matches nothing.
   */
  lemma {:induction false} AnnotationReplacedByName(t: Node, p: Path)
    requires ValidPath(t, p) && p != [] && IsAnnotatedName(At(t, p))
    ensures ValidPath(t, Parent(p)) && At(t, Parent(p)).Branch? && Index(p) < |At(t, Parent(p)).children|
    ensures var r := StripHintEdit(t, p);
      var name := At(t, p).children[0];
      var before := At(t, Parent(p)).children;
      && r.outcome == Completed
      && ValidPath(r.tree, Parent(p))
      && At(r.tree, Parent(p)).children == before[..Index(p)] + [name] + before[Index(p) + 1..]
      && (name.Leaf? ==> MatchHint(name) == NoHint)
  {
    ReplaceAtEffect(t, p, [At(t, p).children[0]]);
  }

  /** The fixer only ever changes annotation and return-hint nodes. */
  lemma {:induction false} MatchedShapes(n: Node)
    ensures MatchHint(n).Annotated? <==> IsAnnotatedName(n)
    ensures MatchHint(n).Returns? <==> HasReturnHint(n) && !IsAnnotatedName(n)
    ensures MatchHint(n).Annotated? ==> n.Branch? && MatchHint(n).name == n.children[0]
    ensures MatchHint(n).Returns? ==> n.Branch? && MatchHint(n).hint == n.children[4]
  {
  }
}
