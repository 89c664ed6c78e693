/**
 * `node_pre_order` and `node_post_order` (strip_type_hints.py:14-24). The source
 * replaces lib2to3's generators by ones that iterate over a copy of each child list,
 * so that a transform may remove siblings while the walk goes on.
 *
 * `PreOrder` and `PostOrder` give the order of the walk over a tree that is not edited
 * while it is walked. The child loop itself, with the driver's edits interleaved, is
 * `WalkCopiedChildren`; `WalkLive` is the loop over the live list that the copy replaces.
 */
module Traversal {
  import opened SyntaxTree

  /** The paths `ps`, each extended at the front by the child index `i`. */
  function Prepend(i: nat, ps: seq<Path>): (r: seq<Path>)
    ensures |r| == |ps|
  {
    seq(|ps|, k requires 0 <= k < |ps| => [i] + ps[k])
  }

  /** Yield the node, then walk each child of the (copied) child list in turn. */
  function PreOrder(t: Node): seq<Path>
    decreases t, 1
  {
    [[]] + PreOrderFrom(t, 0)
  }

  function PreOrderFrom(t: Node, j: nat): seq<Path>
    decreases t, 0, if t.Branch? && j < |t.children| then |t.children| - j else 0
  {
    if !t.Branch? || j >= |t.children| then []
    else Prepend(j, PreOrder(t.children[j])) + PreOrderFrom(t, j + 1)
  }

  /** Walk each child of the (copied) child list in turn, then yield the node. */
  function PostOrder(t: Node): seq<Path>
    decreases t, 1
  {
    PostOrderFrom(t, 0) + [[]]
  }

  function PostOrderFrom(t: Node, j: nat): seq<Path>
    decreases t, 0, if t.Branch? && j < |t.children| then |t.children| - j else 0
  {
    if !t.Branch? || j >= |t.children| then []
    else Prepend(j, PostOrder(t.children[j])) + PostOrderFrom(t, j + 1)
  }

  predicate StrictPrefix(a: Path, b: Path) {
    |a| < |b| && a == b[..|a|]
  }

  /** Every proper ancestor of a yielded node was yielded earlier. */
  ghost predicate AncestorsBefore(ps: seq<Path>) {
    forall k, a :: 0 <= k < |ps| && StrictPrefix(a, ps[k]) ==> a in ps[..k]
  }

  /** Every proper ancestor of a yielded node is yielded later. */
  ghost predicate AncestorsAfter(ps: seq<Path>) {
    forall k, a :: 0 <= k < |ps| && StrictPrefix(a, ps[k]) ==> a in ps[k + 1..]
  }

  ghost predicate NonRootAncestorsBefore(ps: seq<Path>) {
    forall k, a :: 0 <= k < |ps| && StrictPrefix(a, ps[k]) && a != [] ==> a in ps[..k]
  }

  ghost predicate NonRootAncestorsAfter(ps: seq<Path>) {
    forall k, a :: 0 <= k < |ps| && StrictPrefix(a, ps[k]) && a != [] ==> a in ps[k + 1..]
  }

  lemma {:induction false} PrependMember(i: nat, ps: seq<Path>, q: Path)
    ensures q in Prepend(i, ps) <==> q != [] && q[0] == i && q[1..] in ps
  {
    if q in Prepend(i, ps) {
      var k :| 0 <= k < |ps| && Prepend(i, ps)[k] == q;
      assert q[1..] == ps[k];
    }
    if q != [] && q[0] == i && q[1..] in ps {
      var k :| 0 <= k < |ps| && ps[k] == q[1..];
      assert Prepend(i, ps)[k] == q;
    }
  }

  lemma {:induction false} PrependBefore(i: nat, ps: seq<Path>)
    requires AncestorsBefore(ps)
    ensures NonRootAncestorsBefore(Prepend(i, ps))
  {
    var r := Prepend(i, ps);
    forall k, a | 0 <= k < |r| && StrictPrefix(a, r[k]) && a != []
      ensures a in r[..k]
    {
      assert r[k] == [i] + ps[k];
      assert StrictPrefix(a[1..], ps[k]);
      var m :| 0 <= m < k && ps[m] == a[1..];
      assert r[m] == a;
    }
  }

  lemma {:induction false} PrependAfter(i: nat, ps: seq<Path>)
    requires AncestorsAfter(ps)
    ensures NonRootAncestorsAfter(Prepend(i, ps))
  {
    var r := Prepend(i, ps);
    forall k, a | 0 <= k < |r| && StrictPrefix(a, r[k]) && a != []
      ensures a in r[k + 1..]
    {
      assert r[k] == [i] + ps[k];
      assert StrictPrefix(a[1..], ps[k]);
      var m :| k + 1 <= m < |ps| && ps[m] == a[1..];
      assert r[m] == a;
    }
  }

  lemma {:induction false} ConcatBefore(x: seq<Path>, y: seq<Path>)
    requires NonRootAncestorsBefore(x) && NonRootAncestorsBefore(y)
    ensures NonRootAncestorsBefore(x + y)
  {
    var r := x + y;
    forall k, a | 0 <= k < |r| && StrictPrefix(a, r[k]) && a != []
      ensures a in r[..k]
    {
      if k < |x| {
        assert r[k] == x[k] && x[..k] == r[..k];
      } else {
        assert r[k] == y[k - |x|];
        assert a in y[..k - |x|];
        assert r[..k] == x + y[..k - |x|];
      }
    }
  }

  lemma {:induction false} ConcatAfter(x: seq<Path>, y: seq<Path>)
    requires NonRootAncestorsAfter(x) && NonRootAncestorsAfter(y)
    ensures NonRootAncestorsAfter(x + y)
  {
    var r := x + y;
    forall k, a | 0 <= k < |r| && StrictPrefix(a, r[k]) && a != []
      ensures a in r[k + 1..]
    {
      if k < |x| {
        assert r[k] == x[k] && r[k + 1..] == x[k + 1..] + y;
      } else {
        assert r[k] == y[k - |x|];
        assert r[k + 1..] == y[k - |x| + 1..];
      }
    }
  }

  /** Pre-order yields a node before all of its descendants. */
  lemma {:induction false} PreOrderAncestorsFirst(t: Node)
    ensures AncestorsBefore(PreOrder(t))
    decreases t, 1
  {
    PreOrderFromAncestorsFirst(t, 0);
    var f := PreOrderFrom(t, 0);
    var r := PreOrder(t);
    forall k, a | 0 <= k < |r| && StrictPrefix(a, r[k])
      ensures a in r[..k]
    {
      assert k > 0;
      if a == [] {
        assert r[0] == a;
      } else {
        assert r[k] == f[k - 1];
        assert a in f[..k - 1];
        assert r[..k] == [[]] + f[..k - 1];
      }
    }
  }

  lemma {:induction false} PreOrderFromAncestorsFirst(t: Node, j: nat)
    ensures NonRootAncestorsBefore(PreOrderFrom(t, j))
    decreases t, 0, if t.Branch? && j < |t.children| then |t.children| - j else 0
  {
    if t.Branch? && j < |t.children| {
      PreOrderAncestorsFirst(t.children[j]);
      PrependBefore(j, PreOrder(t.children[j]));
      PreOrderFromAncestorsFirst(t, j + 1);
      ConcatBefore(Prepend(j, PreOrder(t.children[j])), PreOrderFrom(t, j + 1));
    }
  }

  /** Post-order yields a node after all of its descendants. */
  lemma {:induction false} PostOrderAncestorsLast(t: Node)
    ensures AncestorsAfter(PostOrder(t))
    decreases t, 1
  {
    PostOrderFromAncestorsLast(t, 0);
    var f := PostOrderFrom(t, 0);
    var r := PostOrder(t);
    forall k, a | 0 <= k < |r| && StrictPrefix(a, r[k])
      ensures a in r[k + 1..]
    {
      assert k < |f|;
      if a == [] {
        assert r[|r| - 1] == a;
      } else {
        assert r[k] == f[k];
        assert r[k + 1..] == f[k + 1..] + [[]];
      }
    }
  }

  lemma {:induction false} PostOrderFromAncestorsLast(t: Node, j: nat)
    ensures NonRootAncestorsAfter(PostOrderFrom(t, j))
    decreases t, 0, if t.Branch? && j < |t.children| then |t.children| - j else 0
  {
    if t.Branch? && j < |t.children| {
      PostOrderAncestorsLast(t.children[j]);
      PrependAfter(j, PostOrder(t.children[j]));
      PostOrderFromAncestorsLast(t, j + 1);
      ConcatAfter(Prepend(j, PostOrder(t.children[j])), PostOrderFrom(t, j + 1));
    }
  }

  /** Pre-order yields exactly the nodes of the tree it was started on. */
  lemma {:induction false} PreOrderVisitsEveryNode(t: Node, q: Path)
    ensures q in PreOrder(t) <==> ValidPath(t, q)
    decreases t, 1
  {
    if q != [] {
      PreOrderFromVisits(t, 0, q);
    }
  }

  lemma {:induction false} PreOrderFromVisits(t: Node, j: nat, q: Path)
    ensures q in PreOrderFrom(t, j) <==> q != [] && q[0] >= j && ValidPath(t, q)
    decreases t, 0, if t.Branch? && j < |t.children| then |t.children| - j else 0
  {
    if t.Branch? && j < |t.children| {
      var c := t.children[j];
      PrependMember(j, PreOrder(c), q);
      if q != [] {
        PreOrderVisitsEveryNode(c, q[1..]);
      }
      PreOrderFromVisits(t, j + 1, q);
    }
  }

  /** Post-order yields exactly the nodes of the tree it was started on. */
  lemma {:induction false} PostOrderVisitsEveryNode(t: Node, q: Path)
    ensures q in PostOrder(t) <==> ValidPath(t, q)
    decreases t, 1
  {
    if q != [] {
      PostOrderFromVisits(t, 0, q);
    }
  }

  lemma {:induction false} PostOrderFromVisits(t: Node, j: nat, q: Path)
    ensures q in PostOrderFrom(t, j) <==> q != [] && q[0] >= j && ValidPath(t, q)
    decreases t, 0, if t.Branch? && j < |t.children| then |t.children| - j else 0
  {
    if t.Branch? && j < |t.children| {
      var c := t.children[j];
      PrependMember(j, PostOrder(c), q);
      if q != [] {
        PostOrderVisitsEveryNode(c, q[1..]);
      }
      PostOrderFromVisits(t, j + 1, q);
    }
  }

  // ---------------------------------------------------------------------------
  // The child loop while the driver edits the tree

  /**
   * What the driver does to a child list while the walk is inside one of its children:
   * given the live list and the child just walked, the live list afterwards. A transform
   * may remove that child or its siblings, or replace them.
   */
  type Driver<!T> = (seq<T>, T) -> seq<T>

  /** The live list after the driver has run once for each of `walked`, in turn. */
  function Drive<T>(live: seq<T>, walked: seq<T>, drive: Driver<T>): seq<T>
    decreases |walked|
  {
    if walked == [] then live
    else drive(Drive(live, walked[..|walked| - 1], drive), walked[|walked| - 1])
  }

  /**
   * `for child in self.children[:]` (lines 16 and 23): the loop runs over the copy taken
   * on entry, so every child present then is walked, once and in order, whatever the
   * driver does to the live list in between; the live list ends as the driver left it.
   */
  method WalkCopiedChildren<T>(children: seq<T>, drive: Driver<T>) returns (walked: seq<T>, live: seq<T>)
    ensures walked == children
    ensures live == Drive(children, children, drive)
  {
    var copy := children[..];
    live := children;
    walked := [];
    for i := 0 to |copy|
      invariant walked == copy[..i]
      invariant live == Drive(children, walked, drive)
    {
      assert (walked + [copy[i]])[..i] == walked;
      walked := walked + [copy[i]];
      live := drive(live, copy[i]);
    }
    assert copy[..|copy|] == children;
  }

  /**
   * lib2to3's own loop `for child in self.children`, which the copy replaces: Python's
   * list iterator reads the live list at a running index. `steps` bounds the walk, since
   * a driver that keeps inserting children would keep it going.
   */
  function WalkLive<T>(live: seq<T>, i: nat, drive: Driver<T>, steps: nat): seq<T>
    decreases steps
  {
    if steps == 0 || i >= |live| then []
    else [live[i]] + WalkLive(drive(live, live[i]), i + 1, drive, steps - 1)
  }

  /** `live` without the first occurrence of `c`: what `c.remove()` does to its parent's list. */
  function RemoveFirst<T(==)>(live: seq<T>, c: T): (r: seq<T>)
    ensures c !in live ==> r == live
    ensures c in live ==> |r| == |live| - 1 && multiset(r) == multiset(live) - multiset{c}
  {
    if live == [] then []
    else if live[0] == c then
      assert live == [c] + live[1..];
      live[1..]
    else
      assert live == [live[0]] + live[1..];
      [live[0]] + RemoveFirst(live[1..], c)
  }

  /**
   * When each visited child removes itself (as `remove_line` or `remove_expr` do), the
   * loop over the live list never reaches the second of three children; the copied
   * list, by `WalkCopiedChildren`, walks all three.
   */
  lemma {:induction false} WalkLiveSkipsSibling<T>(a: T, b: T, c: T)
    requires a != b && b != c && a != c
    ensures var removeSelf: Driver<T> := (live, x) => RemoveFirst(live, x);
      && WalkLive([a, b, c], 0, removeSelf, 3) == [a, c]
      && b !in WalkLive([a, b, c], 0, removeSelf, 3)
  {
    var removeSelf: Driver<T> := (live, x) => RemoveFirst(live, x);
    assert RemoveFirst([a, b, c], a) == [b, c];
    assert RemoveFirst([b, c], c) == [b] by {
      assert RemoveFirst([c], c) == [];
      assert [b, c][1..] == [c];
    }
    assert WalkLive([b], 2, removeSelf, 1) == [];
    assert WalkLive([b, c], 1, removeSelf, 2) == [c] + WalkLive([b], 2, removeSelf, 1);
    assert WalkLive([a, b, c], 0, removeSelf, 3) == [a] + WalkLive([b, c], 1, removeSelf, 2);
  }
}
