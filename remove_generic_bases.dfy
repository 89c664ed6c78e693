/**
 * The fixer `FixRemoveGenericBases` (strip_type_hints.py:308-319): in
 * `class C(Base[T], ...)` the subscript `[T]` of a base is dropped.
 */
module RemoveGenericBases {
  import opened Wrappers
  import opened SyntaxTree
  import opened Edits

  /** `trailer< '[' any* ']' >`. */
  predicate IsSubscript(n: Node) {
    && IsBranch(n, trailer) && |n.children| >= 2
    && IsLiteral(n.children[0], LSQB, "[")
    && IsLiteral(n.children[|n.children| - 1], RSQB, "]")
  }

  /** `power< any generic=trailer< '[' any* ']' > >`: a base with one subscript and nothing else. */
  predicate IsSubscriptedBase(n: Node) {
    IsBranch(n, power) && |n.children| == 2 && IsSubscript(n.children[1])
  }

  /** `classdef< 'class' name=any '(' args=any ')' ':' any >`. */
  predicate IsClassWithBases(n: Node) {
    && IsBranch(n, classdef) && |n.children| == 7
    && IsLiteral(n.children[0], NAME, "class")
    && IsLiteral(n.children[2], LPAR, "(")
    && IsLiteral(n.children[4], RPAR, ")")
    && IsLiteral(n.children[5], COLON, ":")
  }

  /**
   * The first subscripted base at or after `i`. lib2to3 tries `any*` with as few nodes
   * as possible first, so the pattern binds the leftmost one.
   */
  function FirstSubscripted(cs: seq<Node>, i: nat): (r: Option<nat>)
    ensures r.Some? ==> i <= r.value < |cs| && IsSubscriptedBase(cs[r.value])
    ensures r.Some? ==> forall j :: i <= j < r.value ==> !IsSubscriptedBase(cs[j])
    ensures r.None? ==> forall j :: i <= j < |cs| ==> !IsSubscriptedBase(cs[j])
    decreases |cs| - i
  {
    if i >= |cs| then None
    else if IsSubscriptedBase(cs[i]) then Some(i)
    else FirstSubscripted(cs, i + 1)
  }

  /**
   * Lines 310-314: the path, below the class, of the base whose trailer is captured as
   * `generic` — inside the argument list, or the single base itself.
   */
  function MatchGeneric(n: Node): Option<Path> {
    if !IsClassWithBases(n) then None
    else
      var args := n.children[3];
      if IsBranch(args, arglist) then
        match FirstSubscripted(args.children, 0)
        case Some(k) => Some([3, k])
        case None => None
      else if IsSubscriptedBase(args) then Some([3])
      else None
  }

  /** The class matches exactly when it has a subscripted base, in either of the two forms. */
  lemma {:induction false} MatchGenericIff(n: Node)
    ensures MatchGeneric(n).Some? <==>
      && IsClassWithBases(n)
      && (|| IsSubscriptedBase(n.children[3])
          || (IsBranch(n.children[3], arglist) &&
              exists k :: 0 <= k < |n.children[3].children| && IsSubscriptedBase(n.children[3].children[k])))
  {
    if IsClassWithBases(n) && IsBranch(n.children[3], arglist) && FirstSubscripted(n.children[3].children, 0).None? {
      assert !IsSubscriptedBase(n.children[3]);
    }
  }

  /** The captured base, and the facts the removal needs about its path. */
  lemma {:induction false} CapturedBase(t: Node, p: Path)
    requires ValidPath(t, p) && MatchGeneric(At(t, p)).Some?
    ensures var base := p + MatchGeneric(At(t, p)).value;
      && ValidPath(t, base) && IsSubscriptedBase(At(t, base))
      && ValidPath(t, base + [1]) && Parent(base + [1]) == base && Index(base + [1]) == 1
  {
    var base := p + MatchGeneric(At(t, p)).value;
    BaseIsValid(t, p);
    ChildPath(t, base, 1);
  }

  /** The path of the captured base is valid and leads to a subscripted base. */
  lemma {:induction false} BaseIsValid(t: Node, p: Path)
    requires ValidPath(t, p) && MatchGeneric(At(t, p)).Some?
    ensures var base := p + MatchGeneric(At(t, p)).value;
      ValidPath(t, base) && IsSubscriptedBase(At(t, base))
  {
    var n := At(t, p);
    ChildPath(t, p, 3);
    if IsBranch(n.children[3], arglist) {
      var k := MatchGeneric(n).value[1];
      ChildPath(t, p + [3], k);
      assert p + [3] + [k] == p + MatchGeneric(n).value;
    }
  }

  /** Lines 318-319: the captured trailer is removed. */
  function StripGenericEdit(t: Node, p: Path): Edit
    requires ValidPath(t, p) && MatchGeneric(At(t, p)).Some?
  {
    CapturedBase(t, p);
    Edit(Completed, RemoveAt(t, p + MatchGeneric(At(t, p)).value + [1]))
  }

  method Transform(tree: Tree, p: Path) returns (o: Outcome)
    requires ValidPath(tree.root, p) && MatchGeneric(At(tree.root, p)).Some?
    modifies tree
    ensures Edit(o, tree.root) == StripGenericEdit(old(tree.root), p)
  {
    CapturedBase(tree.root, p);
    var generic := p + MatchGeneric(At(tree.root, p)).value + [1];
    tree.Remove(generic);
    return Completed;
  }

  /**
   * The captured base keeps only its name, and every node outside that base (the class
   * name, the other bases, the body) is unchanged.
   */
  lemma {:induction false} GenericRemoved(t: Node, p: Path)
    requires ValidPath(t, p) && MatchGeneric(At(t, p)).Some?
    ensures var base := p + MatchGeneric(At(t, p)).value;
      var r := StripGenericEdit(t, p).tree;
      && ValidPath(t, base) && IsSubscriptedBase(At(t, base)) && ValidPath(r, base)
      && At(r, base) == Branch(power, [At(t, base).children[0]])
    ensures var base := p + MatchGeneric(At(t, p)).value;
      var r := StripGenericEdit(t, p).tree;
      forall q :: ValidPath(t, q) && Disjoint(base, q) ==> ValidPath(r, q) && At(r, q) == At(t, q)
  {
    CapturedBase(t, p);
    var base := p + MatchGeneric(At(t, p)).value;
    RemoveAtEffect(t, base + [1]);
    assert At(t, base).children[..1] + At(t, base).children[2..] == [At(t, base).children[0]];
  }

  /** Inside an argument list: the leftmost subscripted base loses its subscript; every other base is intact. */
  lemma {:induction false} OtherBasesIntact(t: Node, p: Path)
    requires ValidPath(t, p) && MatchGeneric(At(t, p)).Some?
    requires IsBranch(At(t, p).children[3], arglist)
    ensures var args := At(t, p).children[3].children;
      var k := MatchGeneric(At(t, p)).value[1];
      var r := StripGenericEdit(t, p).tree;
      && (forall j :: 0 <= j < k ==> !IsSubscriptedBase(args[j]))
      && (forall j :: 0 <= j < |args| && j != k ==> ValidPath(r, p + [3, j]) && At(r, p + [3, j]) == args[j])
  {
    var args := At(t, p).children[3].children;
    var k := MatchGeneric(At(t, p)).value[1];
    GenericRemoved(t, p);
    ChildPath(t, p, 3);
    forall j | 0 <= j < |args| && j != k
      ensures ValidPath(StripGenericEdit(t, p).tree, p + [3, j]) && At(StripGenericEdit(t, p).tree, p + [3, j]) == args[j]
    {
      ChildPath(t, p + [3], j);
      assert p + [3] + [j] == p + [3, j];
      assert (p + [3, j])[|p| + 1] == j;
      assert Disjoint(p + [3, k], p + [3, j]);
    }
  }
}
