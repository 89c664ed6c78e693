/**
 * The lib2to3 concrete syntax tree the rewriter works on: branches carry a grammar
 * symbol and an ordered child list, leaves carry a token kind, a value and a prefix
 * (the whitespace and comments in front of the token).
 *
 * A node is identified by its path from the root (the child indices taken on the way
 * down), which plays the part of Python's object identity. lib2to3's `remove` and
 * `replace` are modelled by their effect on the parent's child list.
 */
module SyntaxTree {
  import opened Wrappers

  /** The token kinds (lib2to3.pgen2.token) the rewriter looks at. */
  datatype Token =
    | NAME | DOT | COMMA | SEMI | NEWLINE | LPAR | RPAR | LSQB | RSQB | STAR | COLON | RARROW | AT
    | OtherToken(code: int)

  /** The grammar symbols (lib2to3.pygram.python_symbols) the rewriter looks at. */
  datatype Symbol =
    | power | trailer | arglist | expr_stmt | simple_stmt | dotted_name | dotted_as_name
    | import_as_name | import_as_names | import_from | import_name | classdef | funcdef | tname
    | decorated | decorators | decorator | parameters | file_input
    | OtherSymbol(code: int)

  datatype Node =
    | Leaf(token: Token, value: string, prefix: string)
    | Branch(symbol: Symbol, children: seq<Node>)

  type Path = seq<nat>

  /** lib2to3 gives a leaf the empty child list. */
  function Children(n: Node): seq<Node> {
    if n.Branch? then n.children else []
  }

  predicate IsBranch(n: Node, s: Symbol) {
    n.Branch? && n.symbol == s
  }

  predicate IsToken(n: Node, t: Token) {
    n.Leaf? && n.token == t
  }

  /** A pattern literal such as 'import' or '(' : a leaf of that kind with that text. */
  predicate IsLiteral(n: Node, t: Token, v: string) {
    n.Leaf? && n.token == t && n.value == v
  }

  // The leaf builders of lib2to3.fixer_util; a missing prefix is the empty one.
  function Name(value: string, prefix: string): Node { Leaf(NAME, value, prefix) }
  function Dot(): Node { Leaf(DOT, ".", "") }
  function Comma(): Node { Leaf(COMMA, ",", "") }
  function Newline(): Node { Leaf(NEWLINE, "\n", "") }

  /** The prefix of a node is the prefix of its first leaf. */
  function Prefix(n: Node): string {
    match n
    case Leaf(_, _, p) => p
    case Branch(_, cs) => if cs == [] then "" else Prefix(cs[0])
  }

  /** Setting a branch's prefix sets the prefix of its first leaf. */
  function SetPrefix(n: Node, p: string): (r: Node)
    ensures n.Leaf? ==> r == n.(prefix := p)
    ensures Text(r) == Text(n)
  {
    match n
    case Leaf(t, v, _) => Leaf(t, v, p)
    case Branch(s, cs) => if cs == [] then n else Branch(s, [SetPrefix(cs[0], p)] + cs[1..])
  }

  /** The source text of a node's tokens without their prefixes. */
  function Text(n: Node): string {
    match n
    case Leaf(_, v, _) => v
    case Branch(_, cs) => TextOf(cs)
  }

  function TextOf(cs: seq<Node>): string {
    if cs == [] then "" else Text(cs[0]) + TextOf(cs[1..])
  }

  lemma {:induction false} TextOfAppend(a: seq<Node>, b: seq<Node>)
    ensures TextOf(a + b) == TextOf(a) + TextOf(b)
  {
    if a != [] {
      assert (a + b)[1..] == a[1..] + b;
      TextOfAppend(a[1..], b);
    } else {
      assert a + b == b;
    }
  }

  // ---------------------------------------------------------------------------
  // Paths

  predicate ValidPath(t: Node, p: Path)
    decreases p
  {
    p == [] || (t.Branch? && p[0] < |t.children| && ValidPath(t.children[p[0]], p[1..]))
  }

  function At(t: Node, p: Path): Node
    requires ValidPath(t, p)
    decreases p
  {
    if p == [] then t else At(t.children[p[0]], p[1..])
  }

  function Parent(p: Path): Path
    requires p != []
  {
    p[..|p| - 1]
  }

  function Index(p: Path): nat
    requires p != []
  {
    p[|p| - 1]
  }

  predicate IsPrefix(a: Path, b: Path) {
    |a| <= |b| && a == b[..|a|]
  }

  /** Neither path lies inside the subtree of the other. */
  predicate Disjoint(a: Path, b: Path) {
    !IsPrefix(a, b) && !IsPrefix(b, a)
  }

  lemma {:induction false} AtAppend(t: Node, a: Path, b: Path)
    ensures ValidPath(t, a + b) == (ValidPath(t, a) && ValidPath(At(t, a), b))
    ensures ValidPath(t, a + b) ==> At(t, a + b) == At(At(t, a), b)
    decreases a
  {
    if a == [] {
      assert a + b == b;
    } else {
      assert (a + b)[0] == a[0] && (a + b)[1..] == a[1..] + b;
      if t.Branch? && a[0] < |t.children| {
        AtAppend(t.children[a[0]], a[1..], b);
      }
    }
  }

  /** The node at a non-root path is a child of the node at the parent path. */
  lemma {:induction false} ParentOf(t: Node, p: Path)
    requires ValidPath(t, p) && p != []
    ensures ValidPath(t, Parent(p)) && At(t, Parent(p)).Branch?
    ensures Index(p) < |At(t, Parent(p)).children|
    ensures At(t, Parent(p)).children[Index(p)] == At(t, p)
  {
    assert p == Parent(p) + [Index(p)];
    AtAppend(t, Parent(p), [Index(p)]);
  }

  /** Every prefix of a valid path is valid. */
  lemma {:induction false} PrefixValid(t: Node, p: Path, k: nat)
    requires ValidPath(t, p) && k <= |p|
    ensures ValidPath(t, p[..k])
  {
    assert p == p[..k] + p[k..];
    AtAppend(t, p[..k], p[k..]);
  }

  lemma {:induction false} ChildPath(t: Node, p: Path, i: nat)
    requires ValidPath(t, p) && At(t, p).Branch? && i < |At(t, p).children|
    ensures ValidPath(t, p + [i]) && At(t, p + [i]) == At(t, p).children[i]
  {
    AtAppend(t, p, [i]);
  }

  // ---------------------------------------------------------------------------
  // Edits

  /** The tree with the subtree at `p` replaced by `n`. */
  function Put(t: Node, p: Path, n: Node): (r: Node)
    requires ValidPath(t, p)
    ensures ValidPath(r, p) && At(r, p) == n
    decreases p
  {
    if p == [] then n
    else t.(children := t.children[p[0] := Put(t.children[p[0]], p[1..], n)])
  }

  /** A put leaves every node outside the path's subtree and off its ancestors alone. */
  lemma {:induction false} PutElsewhere(t: Node, p: Path, n: Node, q: Path)
    requires ValidPath(t, p) && ValidPath(t, q) && Disjoint(p, q)
    ensures ValidPath(Put(t, p, n), q) && At(Put(t, p, n), q) == At(t, q)
    decreases p
  {
    assert p != [] && q != [];
    if p[0] != q[0] {
      assert Put(t, p, n).children[q[0]] == t.children[q[0]];
    } else {
      assert p == [p[0]] + p[1..] && q == [q[0]] + q[1..];
      assert Disjoint(p[1..], q[1..]);
      PutElsewhere(t.children[p[0]], p[1..], n, q[1..]);
    }
  }

  /** Seen from an ancestor `q` of the edited path, a put is a put inside `At(t, q)`. */
  lemma {:induction false} PutBelow(t: Node, q: Path, rest: Path, n: Node)
    requires ValidPath(t, q + rest)
    ensures ValidPath(t, q) && ValidPath(At(t, q), rest)
    ensures ValidPath(Put(t, q + rest, n), q)
    ensures At(Put(t, q + rest, n), q) == Put(At(t, q), rest, n)
    decreases q
  {
    AtAppend(t, q, rest);
    if q != [] {
      assert (q + rest)[0] == q[0] && (q + rest)[1..] == q[1..] + rest;
      assert Put(t, q + rest, n).children[q[0]] == Put(t.children[q[0]], q[1..] + rest, n);
      PutBelow(t.children[q[0]], q[1..], rest, n);
      assert At(t, q) == At(t.children[q[0]], q[1..]);
      assert At(Put(t, q + rest, n), q) == At(Put(t, q + rest, n).children[q[0]], q[1..]);
    } else {
      assert q + rest == rest;
    }
  }

  /** The branch `b` with its `i`-th child replaced by the nodes `ns`. */
  function Splice(b: Node, i: nat, ns: seq<Node>): (r: Node)
    requires b.Branch? && i < |b.children|
    ensures r.Branch? && r.symbol == b.symbol
    ensures r.children == b.children[..i] + ns + b.children[i + 1..]
  {
    b.(children := b.children[..i] + ns + b.children[i + 1..])
  }

  /** lib2to3 `node.replace(ns)`: the nodes `ns` take the place of the node at `p`. */
  function ReplaceAt(t: Node, p: Path, ns: seq<Node>): Node
    requires ValidPath(t, p) && p != []
  {
    ParentOf(t, p);
    Put(t, Parent(p), Splice(At(t, Parent(p)), Index(p), ns))
  }

  /** lib2to3 `node.remove()` for a node that has a parent. */
  function RemoveAt(t: Node, p: Path): Node
    requires ValidPath(t, p) && p != []
  {
    ReplaceAt(t, p, [])
  }

  /**
   * What a replacement does: the parent keeps its symbol, its child list is the old one
   * with the node's slot filled by `ns` (the siblings keep their order), and every node
   * that is neither the parent, one of its ancestors nor inside its subtree is untouched.
   */
  lemma {:induction false} ReplaceAtEffect(t: Node, p: Path, ns: seq<Node>)
    requires ValidPath(t, p) && p != []
    ensures ValidPath(t, Parent(p)) && At(t, Parent(p)).Branch?
    ensures Index(p) < |At(t, Parent(p)).children|
    ensures var r := ReplaceAt(t, p, ns);
      var before := At(t, Parent(p)).children;
      && ValidPath(r, Parent(p))
      && At(r, Parent(p)).Branch? && At(r, Parent(p)).symbol == At(t, Parent(p)).symbol
      && At(r, Parent(p)).children == before[..Index(p)] + ns + before[Index(p) + 1..]
    ensures forall q :: ValidPath(t, q) && Disjoint(Parent(p), q) ==>
      ValidPath(ReplaceAt(t, p, ns), q) && At(ReplaceAt(t, p, ns), q) == At(t, q)
  {
    ParentOf(t, p);
    forall q | ValidPath(t, q) && Disjoint(Parent(p), q)
      ensures ValidPath(ReplaceAt(t, p, ns), q) && At(ReplaceAt(t, p, ns), q) == At(t, q)
    {
      PutElsewhere(t, Parent(p), Splice(At(t, Parent(p)), Index(p), ns), q);
    }
  }

  /** The same for a removal: exactly the node's slot leaves the parent's child list. */
  lemma {:induction false} RemoveAtEffect(t: Node, p: Path)
    requires ValidPath(t, p) && p != []
    ensures ValidPath(t, Parent(p)) && At(t, Parent(p)).Branch?
    ensures Index(p) < |At(t, Parent(p)).children|
    ensures var r := RemoveAt(t, p);
      var before := At(t, Parent(p)).children;
      && ValidPath(r, Parent(p))
      && At(r, Parent(p)).Branch? && At(r, Parent(p)).symbol == At(t, Parent(p)).symbol
      && |At(r, Parent(p)).children| == |before| - 1
      && At(r, Parent(p)).children == before[..Index(p)] + before[Index(p) + 1..]
    ensures forall q :: ValidPath(t, q) && Disjoint(Parent(p), q) ==>
      ValidPath(RemoveAt(t, p), q) && At(RemoveAt(t, p), q) == At(t, q)
  {
    ReplaceAtEffect(t, p, []);
    ParentOf(t, p);
    var before := At(t, Parent(p)).children;
    assert before[..Index(p)] + [] + before[Index(p) + 1..] == before[..Index(p)] + before[Index(p) + 1..];
  }

  /** Only the parent's side of a removal: the node's slot leaves its child list. */
  lemma {:induction false} RemoveAtParent(t: Node, p: Path)
    requires ValidPath(t, p) && p != []
    ensures ValidPath(t, Parent(p)) && At(t, Parent(p)).Branch?
    ensures Index(p) < |At(t, Parent(p)).children|
    ensures var r := RemoveAt(t, p);
      var before := At(t, Parent(p)).children;
      && ValidPath(r, Parent(p))
      && At(r, Parent(p)) == Branch(At(t, Parent(p)).symbol, before[..Index(p)] + before[Index(p) + 1..])
  {
    ParentOf(t, p);
    var before := At(t, Parent(p)).children;
    assert before[..Index(p)] + [] + before[Index(p) + 1..] == before[..Index(p)] + before[Index(p) + 1..];
  }

  /** The tree being rewritten; lib2to3 changes it in place. */
  class Tree {
    var root: Node

    constructor (root: Node)
      ensures this.root == root
    {
      this.root := root;
    }

    /** `node.remove()`: a node without a parent (the root) is left where it is. */
    method Remove(p: Path)
      requires ValidPath(root, p)
      modifies this
      ensures root == if p == [] then old(root) else RemoveAt(old(root), p)
    {
      if p != [] {
        root := RemoveAt(root, p);
      }
    }

    /** `node.replace(ns)`; lib2to3 asserts that the node has a parent. */
    method Replace(p: Path, ns: seq<Node>)
      requires ValidPath(root, p) && p != []
      modifies this
      ensures root == ReplaceAt(old(root), p, ns)
    {
      root := ReplaceAt(root, p, ns);
    }
  }
}
