/**
 * `StripTypeHintsRefactoringTool.get_fixers` (strip_type_hints.py:340-361): the fixers
 * are split by traversal order into a pre-order and a post-order list, and each list is
 * sorted by `run_order` with Python's stable sort.
 */
module RefactoringTool {
  import opened Wrappers

  /** A fixer as `get_fixers` sees it: its traversal order and its run order. */
  datatype Fixer = Fixer(name: string, order: string, runOrder: int)

  /** `BaseFix` defaults to `order = "post"` and `run_order = 5`. */
  const RemoveCastFixer: Fixer := Fixer("FixRemoveCast", "post", 5)
  const RemoveTypeHintsFixer: Fixer := Fixer("FixRemoveTypeHints", "post", 4)
  const RemoveGenericBasesFixer: Fixer := Fixer("FixRemoveGenericBases", "post", 10)

  /** Line 342: the fixers in the order the tool is given them. */
  const ToolFixers: seq<Fixer> := [RemoveCastFixer, RemoveTypeHintsFixer, RemoveGenericBasesFixer]

  /** The two lists, or the `FixerError` raised for an order that is neither "pre" nor "post". */
  datatype FixerLists = Lists(pre: seq<Fixer>, post: seq<Fixer>) | IllegalOrder(order: string)

  // ---------------------------------------------------------------------------
  // Stable sort by run order

  predicate SortedByRunOrder(s: seq<Fixer>) {
    forall i, j :: 0 <= i < j < |s| ==> s[i].runOrder <= s[j].runOrder
  }

  /** Where `x` goes in a sorted list: after every fixer that does not run later than it. */
  function InsertPos(s: seq<Fixer>, x: Fixer, i: nat): (r: nat)
    requires i <= |s|
    ensures i <= r <= |s|
    ensures forall k :: i <= k < r ==> s[k].runOrder <= x.runOrder
    ensures r < |s| ==> s[r].runOrder > x.runOrder
    decreases |s| - i
  {
    if i == |s| || s[i].runOrder > x.runOrder then i else InsertPos(s, x, i + 1)
  }

  function Insert(s: seq<Fixer>, x: Fixer): seq<Fixer> {
    var j := InsertPos(s, x, 0);
    s[..j] + [x] + s[j..]
  }

  /** What `list.sort(key=attrgetter("run_order"))` leaves: insertion sort, ties in input order. */
  function StableSort(s: seq<Fixer>): seq<Fixer> {
    if s == [] then [] else Insert(StableSort(s[..|s| - 1]), s[|s| - 1])
  }

  /** The fixers with the given run order, in list order. */
  function WithRunOrder(s: seq<Fixer>, v: int): seq<Fixer> {
    if s == [] then []
    else WithRunOrder(s[..|s| - 1], v) + (if s[|s| - 1].runOrder == v then [s[|s| - 1]] else [])
  }

  lemma {:induction false} WithRunOrderAppend(a: seq<Fixer>, b: seq<Fixer>, v: int)
    ensures WithRunOrder(a + b, v) == WithRunOrder(a, v) + WithRunOrder(b, v)
    decreases |b|
  {
    if b == [] {
      assert a + b == a;
    } else {
      var b' := b[..|b| - 1];
      assert (a + b)[..|a + b| - 1] == a + b';
      WithRunOrderAppend(a, b', v);
    }
  }

  lemma {:induction false} WithRunOrderNone(s: seq<Fixer>, v: int)
    requires forall k :: 0 <= k < |s| ==> s[k].runOrder != v
    ensures WithRunOrder(s, v) == []
    decreases |s|
  {
    if s != [] {
      WithRunOrderNone(s[..|s| - 1], v);
    }
  }

  /** The elements of `Insert(s, x)`: those of `s` before the insertion point, `x`, then the rest of `s`. */
  lemma {:induction false} InsertElements(s: seq<Fixer>, x: Fixer)
    ensures var j := InsertPos(s, x, 0); var r := Insert(s, x);
      && |r| == |s| + 1 && r[j] == x
      && (forall i :: 0 <= i < j ==> r[i] == s[i])
      && (forall i :: j < i < |r| ==> r[i] == s[i - 1])
  {
  }

  lemma {:induction false} InsertSorted(s: seq<Fixer>, x: Fixer)
    requires SortedByRunOrder(s)
    ensures SortedByRunOrder(Insert(s, x))
  {
    var j := InsertPos(s, x, 0);
    var r := Insert(s, x);
    InsertElements(s, x);
    forall a, b | 0 <= a < b < |r|
      ensures r[a].runOrder <= r[b].runOrder
    {
      if b < j {
        assert r[a] == s[a] && r[b] == s[b];
      } else if b == j {
        assert r[a] == s[a];
      } else if a < j {
        assert r[a] == s[a] && r[b] == s[b - 1];
      } else if a == j {
        assert s[j].runOrder > x.runOrder;
        assert r[b] == s[b - 1];
      } else {
        assert r[a] == s[a - 1] && r[b] == s[b - 1];
      }
    }
  }

  lemma {:induction false} InsertPermutes(s: seq<Fixer>, x: Fixer)
    ensures multiset(Insert(s, x)) == multiset(s) + multiset{x}
  {
    var j := InsertPos(s, x, 0);
    assert s == s[..j] + s[j..];
    assert Insert(s, x) == s[..j] + [x] + s[j..];
  }

  /** No fixer at or after the insertion point has the inserted fixer's run order. */
  lemma {:induction false} AfterInsertPos(s: seq<Fixer>, x: Fixer)
    requires SortedByRunOrder(s)
    ensures var j := InsertPos(s, x, 0); forall k :: 0 <= k < |s[j..]| ==> s[j..][k].runOrder != x.runOrder
  {
    var j := InsertPos(s, x, 0);
    forall k | 0 <= k < |s[j..]|
      ensures s[j..][k].runOrder != x.runOrder
    {
      assert s[j..][k] == s[j + k];
    }
  }

  lemma {:induction false} WithRunOrderAround(before: seq<Fixer>, x: Fixer, after: seq<Fixer>, v: int)
    ensures WithRunOrder(before + [x] + after, v)
         == WithRunOrder(before, v) + (if x.runOrder == v then [x] else []) + WithRunOrder(after, v)
  {
    WithRunOrderAppend(before + [x], after, v);
    WithRunOrderAppend(before, [x], v);
    assert [x][..0] == [];
  }

  /** Both `s` and `Insert(s, x)` split at the insertion point. */
  lemma {:induction false} InsertSplits(s: seq<Fixer>, x: Fixer, v: int)
    ensures var j := InsertPos(s, x, 0);
      && WithRunOrder(s, v) == WithRunOrder(s[..j], v) + WithRunOrder(s[j..], v)
      && WithRunOrder(Insert(s, x), v)
         == WithRunOrder(s[..j], v) + (if x.runOrder == v then [x] else []) + WithRunOrder(s[j..], v)
  {
    var j := InsertPos(s, x, 0);
    var before, after := s[..j], s[j..];
    assert s == before + after;
    WithRunOrderAppend(before, after, v);
    assert Insert(s, x) == before + [x] + after;
    WithRunOrderAround(before, x, after, v);
  }

  /** Inserting `x` adds it after the fixers of its own run order and changes no other run order's list. */
  lemma {:induction false} InsertStable(s: seq<Fixer>, x: Fixer, v: int)
    requires SortedByRunOrder(s)
    ensures WithRunOrder(Insert(s, x), v) == WithRunOrder(s, v) + (if x.runOrder == v then [x] else [])
  {
    var j := InsertPos(s, x, 0);
    InsertSplits(s, x, v);
    if x.runOrder == v {
      AfterInsertPos(s, x);
      WithRunOrderNone(s[j..], v);
      assert WithRunOrder(s, v) == WithRunOrder(s[..j], v);
    }
  }

  /** The sorted list is ordered by run order and holds the same fixers. */
  lemma {:induction false} StableSortSorted(s: seq<Fixer>)
    ensures SortedByRunOrder(StableSort(s))
    ensures multiset(StableSort(s)) == multiset(s)
    decreases |s|
  {
    if s != [] {
      var init := s[..|s| - 1];
      StableSortSorted(init);
      InsertSorted(StableSort(init), s[|s| - 1]);
      InsertPermutes(StableSort(init), s[|s| - 1]);
      assert s == init + [s[|s| - 1]];
    }
  }

  /** Fixers with equal run order keep their relative order. */
  lemma {:induction false} StableSortStable(s: seq<Fixer>, v: int)
    ensures WithRunOrder(StableSort(s), v) == WithRunOrder(s, v)
    decreases |s|
  {
    if s != [] {
      var init := s[..|s| - 1];
      StableSortStable(init, v);
      StableSortSorted(init);
      InsertStable(StableSort(init), s[|s| - 1], v);
    }
  }

  /** `list.sort(key=attrgetter("run_order"))` as an insertion sort over the list. */
  method SortByRunOrder(s: seq<Fixer>) returns (r: seq<Fixer>)
    ensures r == StableSort(s)
  {
    r := [];
    for k := 0 to |s|
      invariant r == StableSort(s[..k])
    {
      var x := s[k];
      var j := 0;
      while j < |r| && r[j].runOrder <= x.runOrder
        invariant j <= |r| && InsertPos(r, x, j) == InsertPos(r, x, 0)
      {
        j := j + 1;
      }
      assert s[..k + 1][..k] == s[..k];
      r := r[..j] + [x] + r[j..];
    }
    assert s[..|s|] == s;
  }

  // ---------------------------------------------------------------------------
  // get_fixers

  predicate HasLegalOrder(f: Fixer) {
    f.order == "pre" || f.order == "post"
  }

  /** The fixers of one traversal order, in declaration order. */
  function WithOrder(fs: seq<Fixer>, order: string): seq<Fixer> {
    if fs == [] then []
    else WithOrder(fs[..|fs| - 1], order) + (if fs[|fs| - 1].order == order then [fs[|fs| - 1]] else [])
  }

  /** The selection holds only fixers of the order asked for, each taken from the list. */
  lemma {:induction false} WithOrderOnly(fs: seq<Fixer>, order: string)
    ensures forall k :: 0 <= k < |WithOrder(fs, order)| ==> WithOrder(fs, order)[k].order == order
    ensures forall k :: 0 <= k < |WithOrder(fs, order)| ==> WithOrder(fs, order)[k] in fs
    decreases |fs|
  {
    if fs != [] {
      var init := fs[..|fs| - 1];
      WithOrderOnly(init, order);
      assert forall f :: f in init ==> f in fs;
    }
  }

  lemma {:induction false} WithOrderSnoc(fs: seq<Fixer>, k: nat, order: string)
    requires k < |fs|
    ensures WithOrder(fs[..k + 1], order) == WithOrder(fs[..k], order) + (if fs[k].order == order then [fs[k]] else [])
  {
    assert fs[..k + 1][..k] == fs[..k];
  }

  /** The first fixer at or after `i` whose order is illegal, if any. */
  function FirstIllegal(fs: seq<Fixer>, i: nat): (r: Option<nat>)
    ensures r.Some? ==> i <= r.value < |fs| && !HasLegalOrder(fs[r.value])
    ensures r.Some? ==> forall k :: i <= k < r.value ==> HasLegalOrder(fs[k])
    ensures r.None? ==> forall k :: i <= k < |fs| ==> HasLegalOrder(fs[k])
    decreases |fs| - i
  {
    if i >= |fs| then None
    else if !HasLegalOrder(fs[i]) then Some(i)
    else FirstIllegal(fs, i + 1)
  }

  /**
   * What `get_fixers` returns for the fixer list: `FixerError` for the first illegal order,
   * otherwise the two sorted lists. It raises exactly when some fixer's order is illegal.
   */
  function GetFixersSpec(fs: seq<Fixer>): (r: FixerLists)
    ensures r.IllegalOrder? <==> exists k :: 0 <= k < |fs| && !HasLegalOrder(fs[k])
    ensures r.IllegalOrder? ==> exists k :: && 0 <= k < |fs| && r.order == fs[k].order && !HasLegalOrder(fs[k])
                                           && forall j :: 0 <= j < k ==> HasLegalOrder(fs[j])
  {
    match FirstIllegal(fs, 0)
    case Some(i) => IllegalOrder(fs[i].order)
    case None => Lists(StableSort(WithOrder(fs, "pre")), StableSort(WithOrder(fs, "post")))
  }

  lemma {:induction false} RaisesAt(fs: seq<Fixer>, k: nat)
    requires k < |fs| && !HasLegalOrder(fs[k]) && forall j :: 0 <= j < k ==> HasLegalOrder(fs[j])
    ensures GetFixersSpec(fs) == IllegalOrder(fs[k].order)
  {
    assert FirstIllegal(fs, 0) == Some(k);
  }

  lemma {:induction false} ListsWhenLegal(fs: seq<Fixer>)
    requires forall j :: 0 <= j < |fs| ==> HasLegalOrder(fs[j])
    ensures GetFixersSpec(fs) == Lists(StableSort(WithOrder(fs, "pre")), StableSort(WithOrder(fs, "post")))
  {
    assert FirstIllegal(fs, 0).None?;
  }

  /** Lines 344-361. */
  method GetFixers(fs: seq<Fixer>) returns (r: FixerLists)
    ensures r == GetFixersSpec(fs)
  {
    var pre: seq<Fixer> := [];
    var post: seq<Fixer> := [];
    for k := 0 to |fs|
      invariant forall j :: 0 <= j < k ==> HasLegalOrder(fs[j])
      invariant pre == WithOrder(fs[..k], "pre") && post == WithOrder(fs[..k], "post")
    {
      var fixer := fs[k];
      WithOrderSnoc(fs, k, "pre");
      WithOrderSnoc(fs, k, "post");
      if fixer.order == "pre" {
        pre := pre + [fixer];
      } else if fixer.order == "post" {
        post := post + [fixer];
      } else {
        RaisesAt(fs, k);
        return IllegalOrder(fixer.order);
      }
    }
    assert fs[..|fs|] == fs;
    ListsWhenLegal(fs);
    pre := SortByRunOrder(pre);
    post := SortByRunOrder(post);
    return Lists(pre, post);
  }

  /** With only legal orders, the two selections together hold every fixer once. */
  lemma {:induction false} SplitCovers(fs: seq<Fixer>)
    requires forall k :: 0 <= k < |fs| ==> HasLegalOrder(fs[k])
    ensures multiset(WithOrder(fs, "pre")) + multiset(WithOrder(fs, "post")) == multiset(fs)
    decreases |fs|
  {
    if fs != [] {
      var init := fs[..|fs| - 1];
      var f := fs[|fs| - 1];
      SplitCovers(init);
      assert fs == init + [f];
      assert multiset(fs) == multiset(init) + multiset{f};
      if f.order == "pre" {
        assert WithOrder(fs, "pre") == WithOrder(init, "pre") + [f];
        assert WithOrder(fs, "post") == WithOrder(init, "post");
      } else {
        assert WithOrder(fs, "pre") == WithOrder(init, "pre");
        assert WithOrder(fs, "post") == WithOrder(init, "post") + [f];
      }
    }
  }

  lemma {:induction false} StableSortElements(s: seq<Fixer>)
    ensures forall k :: 0 <= k < |StableSort(s)| ==> StableSort(s)[k] in s
  {
    StableSortSorted(s);
    forall k | 0 <= k < |StableSort(s)|
      ensures StableSort(s)[k] in s
    {
      assert StableSort(s)[k] in multiset(StableSort(s));
    }
  }

  /**
   * Every fixer is in exactly one of the two lists, each list holds only fixers of its own
   * order, sorted by run order, and fixers with equal run order keep their declaration order.
   */
  lemma {:induction false} GetFixersPartition(fs: seq<Fixer>)
    requires GetFixersSpec(fs).Lists?
    ensures var r := GetFixersSpec(fs);
      && multiset(r.pre) + multiset(r.post) == multiset(fs)
      && (forall k :: 0 <= k < |r.pre| ==> r.pre[k].order == "pre")
      && (forall k :: 0 <= k < |r.post| ==> r.post[k].order == "post")
      && SortedByRunOrder(r.pre) && SortedByRunOrder(r.post)
      && (forall v :: WithRunOrder(r.pre, v) == WithRunOrder(WithOrder(fs, "pre"), v))
      && (forall v :: WithRunOrder(r.post, v) == WithRunOrder(WithOrder(fs, "post"), v))
  {
    var pre := WithOrder(fs, "pre");
    var post := WithOrder(fs, "post");
    SplitCovers(fs);
    WithOrderOnly(fs, "pre");
    WithOrderOnly(fs, "post");
    StableSortSorted(pre);
    StableSortSorted(post);
    StableSortElements(pre);
    StableSortElements(post);
    forall v
      ensures WithRunOrder(StableSort(pre), v) == WithRunOrder(pre, v)
      ensures WithRunOrder(StableSort(post), v) == WithRunOrder(post, v)
    {
      StableSortStable(pre, v);
      StableSortStable(post, v);
    }
  }

  lemma {:induction false} ToolFixersSelected()
    ensures WithOrder(ToolFixers, "pre") == [] && WithOrder(ToolFixers, "post") == ToolFixers
  {
    var fs := ToolFixers;
    var s1 := [RemoveCastFixer];
    var s2 := [RemoveCastFixer, RemoveTypeHintsFixer];
    assert fs[..2] == s2 && s2[..1] == s1 && s1[..0] == [];
    assert RemoveCastFixer.order != "pre" && RemoveTypeHintsFixer.order != "pre" && RemoveGenericBasesFixer.order != "pre" by {
      assert |"post"| != |"pre"|;
    }
    assert WithOrder(s1, "pre") == [];
    assert WithOrder(s2, "pre") == [];
    assert WithOrder(s1, "post") == s1 && WithOrder(s2, "post") == s2;
  }

  lemma {:induction false} ToolFixersSorted()
    ensures StableSort(ToolFixers) == [RemoveTypeHintsFixer, RemoveCastFixer, RemoveGenericBasesFixer]
  {
    var fs := ToolFixers;
    var s1 := [RemoveCastFixer];
    var s2 := [RemoveCastFixer, RemoveTypeHintsFixer];
    assert fs[..2] == s2 && s2[..1] == s1 && s1[..0] == [];
    assert StableSort(s1) == s1;
    assert InsertPos(s1, RemoveTypeHintsFixer, 0) == 0;
    var sorted2 := [RemoveTypeHintsFixer, RemoveCastFixer];
    assert StableSort(s2) == sorted2;
    assert InsertPos(sorted2, RemoveGenericBasesFixer, 2) == 2;
    assert InsertPos(sorted2, RemoveGenericBasesFixer, 0) == 2;
  }

  /** The tool's three fixers all run after the children, type hints first and generic bases last. */
  lemma {:induction false} ToolFixerOrder()
    ensures GetFixersSpec(ToolFixers) == Lists([], [RemoveTypeHintsFixer, RemoveCastFixer, RemoveGenericBasesFixer])
  {
    assert forall j :: 0 <= j < |ToolFixers| ==> HasLegalOrder(ToolFixers[j]);
    ListsWhenLegal(ToolFixers);
    ToolFixersSelected();
    ToolFixersSorted();
  }
}
