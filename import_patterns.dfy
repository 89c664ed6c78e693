/**
 * The import statements `FixRemoveCast.match` recognises (strip_type_hints.py:99-108)
 * and what it gathers from them (lines 167-220): the names imported from `typing`, the
 * replacement imports grouped by module, and the modules a whole-module import needs.
 */
module ImportPatterns {
  import opened Wrappers
  import opened SyntaxTree
  import opened TypingTable
  import opened Builders
  import opened UsagePatterns

  // ---------------------------------------------------------------------------
  // IMPORT_PATTERN

  datatype ImportCapture =
    | NotAnImport
    | ModuleCaptured(modulename: Node)   // `import typing` or `import typing as M`
    | ImportsCaptured(imports: Node)     // `from typing import ...`

  /** The node lib2to3 accepts in the `imports=` slot. */
  predicate ImportsSlot(x: Node) {
    IsBranch(x, import_as_names) || IsBranch(x, import_as_name)
  }

  /** `['('] imports [')']`: the optional parentheses around the imported names. */
  function ImportsIn(rest: seq<Node>): (r: Option<Node>)
    ensures r.Some? ==> r.value in rest && ImportsSlot(r.value)
    ensures r.Some? ==> forall k :: 0 <= k < |rest| && rest[k] != r.value ==> IsParen(rest[k])
  {
    if |rest| == 1 && ImportsSlot(rest[0]) then Some(rest[0])
    else if |rest| == 2 && IsLiteral(rest[0], LPAR, "(") && ImportsSlot(rest[1]) then Some(rest[1])
    else if |rest| == 2 && ImportsSlot(rest[0]) && IsLiteral(rest[1], RPAR, ")") then Some(rest[0])
    else if |rest| == 3 && IsLiteral(rest[0], LPAR, "(") && ImportsSlot(rest[1]) && IsLiteral(rest[2], RPAR, ")")
    then Some(rest[1])
    else None
  }

  predicate IsParen(n: Node) {
    IsLiteral(n, LPAR, "(") || IsLiteral(n, RPAR, ")")
  }

  /** At most one parenthesis of the given kind. */
  predicate OptionalLiteral(ns: seq<Node>, t: Token, v: string) {
    ns == [] || (|ns| == 1 && IsLiteral(ns[0], t, v))
  }

  /** A name list, with or without either parenthesis around it, is captured. */
  lemma {:induction false} ImportsInParentheses(before: seq<Node>, x: Node, after: seq<Node>)
    requires OptionalLiteral(before, LPAR, "(") && OptionalLiteral(after, RPAR, ")")
    requires ImportsSlot(x)
    ensures ImportsIn(before + [x] + after) == Some(x)
  {
    var rest := before + [x] + after;
    if before != [] {
      assert rest[0] == before[0] && rest[1] == x;
    }
    if after != [] {
      assert rest[|rest| - 1] == after[0];
    }
    if before == [] {
      assert rest[0] == x;
    }
  }

  /** The four alternatives of IMPORT_PATTERN, tried in order. */
  function MatchImport(n: Node): ImportCapture {
    if IsBranch(n, import_name) && |n.children| == 2 && IsLiteral(n.children[0], NAME, "import") then
      var m := n.children[1];
      if IsLiteral(m, NAME, "typing") then ModuleCaptured(m)
      else if IsBranch(m, dotted_as_name) && |m.children| == 3
        && IsLiteral(m.children[0], NAME, "typing") && IsLiteral(m.children[1], NAME, "as")
      then ModuleCaptured(m.children[2])
      else NotAnImport
    else if IsBranch(n, import_from) && |n.children| >= 4
      && IsLiteral(n.children[0], NAME, "from") && IsLiteral(n.children[1], NAME, "typing")
      && IsLiteral(n.children[2], NAME, "import")
    then
      match ImportsIn(n.children[3..])
      case Some(x) => ImportsCaptured(x)
      case None => NotAnImport
    else NotAnImport
  }

  /** `from typing import *` is not matched: the star is not a name list. */
  lemma {:induction false} StarImportIsNotMatched(n: Node, star: Node)
    requires IsToken(star, STAR)
    requires IsBranch(n, import_from) && |n.children| == 4
    requires n.children[3] == star
    ensures MatchImport(n) == NotAnImport
  {
  }

  /**
   * `from typing import X` with one bare name is not matched either: lib2to3 leaves a
   * lone NAME leaf there, not an `import_as_names` node.
   */
  lemma {:induction false} SingleBareNameIsNotMatched(n: Node)
    requires IsBranch(n, import_from) && |n.children| == 4
    requires IsToken(n.children[3], NAME)
    ensures MatchImport(n) == NotAnImport
  {
  }

  /** Every capture of the imports slot is a name list or one `as` import, never a star. */
  lemma {:induction false} CapturedImportsAreNames(n: Node)
    requires MatchImport(n).ImportsCaptured?
    ensures ImportsSlot(MatchImport(n).imports) && !IsToken(MatchImport(n).imports, STAR)
  {
  }

  /** `from typing import (a, b)`: the parenthesised name list is captured. */
  lemma {:induction false} MatchParenthesisedFromTyping(n: Node, x: Node)
    requires ImportsSlot(x)
    requires IsBranch(n, import_from) && |n.children| == 6 && n.children[4] == x
    requires IsLiteral(n.children[0], NAME, "from") && IsLiteral(n.children[1], NAME, "typing")
    requires IsLiteral(n.children[2], NAME, "import")
    requires IsLiteral(n.children[3], LPAR, "(") && IsLiteral(n.children[5], RPAR, ")")
    ensures MatchImport(n) == ImportsCaptured(x)
  {
    assert n.children[3..] == [n.children[3]] + [x] + [n.children[5]];
    ImportsInParentheses([n.children[3]], x, [n.children[5]]);
  }

  // ---------------------------------------------------------------------------
  // Reading the imported names

  datatype Entry =
    | BareName(name: string)                       // a NAME child of import_as_names
    | AsName(name: string, alias: Option<string>)  // an import_as_name child

  /** The alias passed to `make_pattern`. */
  function BoundAlias(e: Entry): Option<string> {
    if e.BareName? then None else e.alias
  }

  /** The second component of the pair added to the replacement imports. */
  function ImportedAs(e: Entry): Option<string> {
    if e.BareName? then Some(e.name) else e.alias
  }

  datatype EntryRead = Skip | Read(entry: Entry) | Crash(error: PyError)

  /**
   * One child of the name list (lines 180-195): a NAME, an `a as b` node whose name
   * and alias are read with `.value` (which a branch does not have), or something
   * else (a comma) that is skipped.
   */
  function ReadEntry(c: Node): EntryRead {
    if IsToken(c, NAME) then Read(BareName(c.value))
    else if IsBranch(c, import_as_name) then
      if |c.children| == 0 then Crash(IndexError)
      else if c.children[0].Branch? then Crash(AttributeError)
      else if |c.children| == 1 then Read(AsName(c.children[0].value, None))
      else if |c.children| < 3 then Crash(IndexError)
      else if c.children[2].Branch? then Crash(AttributeError)
      else Read(AsName(c.children[0].value, Some(c.children[2].value)))
    else Skip
  }

  /** The entries read before the first crash, and that crash if there was one. */
  datatype Reading = Reading(entries: seq<Entry>, error: Option<PyError>)

  /** The entries the children read as one by one, in order, disregarding crashes. */
  function EntriesOf(cs: seq<Node>): seq<Entry> {
    if cs == [] then []
    else EntriesOf(cs[..|cs| - 1]) + match ReadEntry(cs[|cs| - 1]) case Read(e) => [e] case _ => []
  }

  /** No child of `cs` crashes when it is read. */
  predicate NoCrash(cs: seq<Node>) {
    forall k :: 0 <= k < |cs| ==> !ReadEntry(cs[k]).Crash?
  }

  /** The loop over the children (lines 179-195), stopping at the first crash. */
  function ReadEntries(cs: seq<Node>): (r: Reading)
    ensures |r.entries| <= |cs|
  {
    if cs == [] then Reading([], None)
    else
      var r := ReadEntries(cs[..|cs| - 1]);
      if r.error.Some? then r
      else match ReadEntry(cs[|cs| - 1])
        case Skip => r
        case Read(e) => Reading(r.entries + [e], None)
        case Crash(err) => Reading(r.entries, Some(err))
  }

  /**
   * Reading the children yields the entry of every NAME and `a as b` child, in order,
   * when no child crashes; otherwise it stops at the first child that crashes, with that
   * child's error and the entries of the children before it.
   */
  lemma {:induction false} ReadEntriesPerChild(cs: seq<Node>)
    ensures var r := ReadEntries(cs);
      && (r.error.None? <==> NoCrash(cs))
      && (r.error.None? ==> r.entries == EntriesOf(cs))
      && (r.error.Some? ==>
            exists j :: 0 <= j < |cs| && NoCrash(cs[..j]) && ReadEntry(cs[j]) == Crash(r.error.value)
              && r.entries == EntriesOf(cs[..j]))
    decreases |cs|
  {
    if cs != [] {
      var init, last := cs[..|cs| - 1], cs[|cs| - 1];
      ReadEntriesPerChild(init);
      var ri := ReadEntries(init);
      if ri.error.Some? {
        var j :| 0 <= j < |init| && NoCrash(init[..j]) && ReadEntry(init[j]) == Crash(ri.error.value)
          && ri.entries == EntriesOf(init[..j]);
        assert init[..j] == cs[..j] && init[j] == cs[j];
      } else {
        assert forall k :: 0 <= k < |init| ==> init[k] == cs[k];
        if ReadEntry(last).Crash? {
          assert cs[..|cs| - 1] == init;
        }
      }
    }
  }

  /** After the first crash nothing more is read. */
  lemma {:induction false} ReadEntriesCrashSticks(cs: seq<Node>, j: nat)
    requires j <= |cs| && ReadEntries(cs[..j]).error.Some?
    ensures ReadEntries(cs) == ReadEntries(cs[..j])
    decreases |cs|
  {
    if j == |cs| {
      assert cs[..j] == cs;
    } else {
      var init := cs[..|cs| - 1];
      assert init[..j] == cs[..j];
      ReadEntriesCrashSticks(init, j);
    }
  }

  /** The entry a `(name, alias)` pair given to `FromImport` reads back as. */
  function EntryOfPair(p: (string, Option<string>)): Entry {
    if p.1.None? || p.1.value == p.0 then BareName(p.0) else AsName(p.0, p.1)
  }

  function EntriesOfPairs(names: seq<(string, Option<string>)>): (r: seq<Entry>)
    ensures |r| == |names| && forall k :: 0 <= k < |names| ==> r[k] == EntryOfPair(names[k])
  {
    seq(|names|, k requires 0 <= k < |names| => EntryOfPair(names[k]))
  }

  lemma {:induction false} ReadImportLeaf(p: (string, Option<string>))
    ensures ReadEntry(ImportLeaf(p.0, p.1)) == Read(EntryOfPair(p))
  {
  }

  lemma {:induction false} ReadEntriesSnoc(cs: seq<Node>, c: Node)
    requires ReadEntries(cs).error.None?
    ensures ReadEntries(cs + [c]) ==
      match ReadEntry(c)
      case Skip => ReadEntries(cs)
      case Read(e) => Reading(ReadEntries(cs).entries + [e], None)
      case Crash(err) => Reading(ReadEntries(cs).entries, Some(err))
  {
    assert (cs + [c])[..|cs|] == cs;
  }

  /** A comma and then a name added to a list that reads without a crash. */
  lemma {:induction false} ReadCommaThenName(a: seq<Node>, leaf: Node, e: Entry)
    requires ReadEntries(a).error.None?
    requires ReadEntry(leaf) == Read(e)
    ensures ReadEntries(a + [Comma(), leaf]) == Reading(ReadEntries(a).entries + [e], None)
  {
    ReadEntriesSnoc(a, Comma());
    ReadEntriesSnoc(a + [Comma()], leaf);
    assert a + [Comma(), leaf] == (a + [Comma()]) + [leaf];
  }

  /** Reading back the name list `FromImport` builds gives its names, with no crash. */
  lemma {:induction false} ReadBackImportNames(names: seq<(string, Option<string>)>)
    ensures ReadEntries(Interleave(ImportLeaves(names), Comma())) == Reading(EntriesOfPairs(names), None)
    decreases |names|
  {
    if |names| == 1 {
      ReadBackOneName(names[0]);
      assert names == [names[0]];
    } else if |names| > 1 {
      ReadBackImportNames(names[..|names| - 1]);
      ReadBackNextName(names);
    }
  }

  lemma {:induction false} ReadBackOneName(x: (string, Option<string>))
    ensures ReadEntries(Interleave(ImportLeaves([x]), Comma())) == Reading(EntriesOfPairs([x]), None)
  {
    ReadImportLeaf(x);
    ReadEntriesSnoc([], ImportLeaf(x.0, x.1));
    assert Interleave(ImportLeaves([x]), Comma()) == [] + [ImportLeaf(x.0, x.1)];
    assert EntriesOfPairs([x]) == [EntryOfPair(x)];
  }

  /** One more name, after a comma, reads back as one more entry. */
  lemma {:induction false} ReadBackNextName(names: seq<(string, Option<string>)>)
    requires |names| > 1
    requires var init := names[..|names| - 1];
      ReadEntries(Interleave(ImportLeaves(init), Comma())) == Reading(EntriesOfPairs(init), None)
    ensures ReadEntries(Interleave(ImportLeaves(names), Comma())) == Reading(EntriesOfPairs(names), None)
  {
    var init := names[..|names| - 1];
    var last := names[|names| - 1];
    var leaf := ImportLeaf(last.0, last.1);
    PairsSnoc(names);
    InterleaveSnoc(ImportLeaves(init), leaf, Comma());
    ReadImportLeaf(last);
    ReadCommaThenName(Interleave(ImportLeaves(init), Comma()), leaf, EntryOfPair(last));
  }

  /** The leaves and the entries of a name list grow by one at its end. */
  lemma {:induction false} PairsSnoc(names: seq<(string, Option<string>)>)
    requires names != []
    ensures var init, last := names[..|names| - 1], names[|names| - 1];
      && ImportLeaves(names) == ImportLeaves(init) + [ImportLeaf(last.0, last.1)]
      && EntriesOfPairs(names) == EntriesOfPairs(init) + [EntryOfPair(last)]
  {
    var init, last := names[..|names| - 1], names[|names| - 1];
    var a, b := ImportLeaves(names), ImportLeaves(init) + [ImportLeaf(last.0, last.1)];
    forall k | 0 <= k < |a|
      ensures a[k] == b[k]
    {
      if k < |init| {
        assert init[k] == names[k];
      }
    }
    var c, d := EntriesOfPairs(names), EntriesOfPairs(init) + [EntryOfPair(last)];
    forall k | 0 <= k < |c|
      ensures c[k] == d[k]
    {
      if k < |init| {
        assert init[k] == names[k];
      }
    }
    assert a == b && c == d;
  }

  /**
   * `from typing import a, b as c` as `FromImport` would build it is matched, and its
   * names read back unchanged.
   */
  lemma {:induction false} FromTypingImportRoundTrip(names: seq<(string, Option<string>)>)
    ensures var n := FromImportNode("typing", names);
      && MatchImport(n) == ImportsCaptured(n.children[3])
      && ReadEntries(n.children[3].children) == Reading(EntriesOfPairs(names), None)
  {
    var n := FromImportNode("typing", names);
    var x := Branch(import_as_names, Interleave(ImportLeaves(names), Comma()));
    TypingHasNoDot();
    DottedNameShape("typing", "");
    assert n == Branch(import_from, [Leaf(NAME, "from", ""), Leaf(NAME, "typing", " "), Leaf(NAME, "import", " "), x]);
    MatchFromTyping(n, x);
    ReadBackImportNames(names);
  }

  lemma {:induction false} TypingHasNoDot()
    ensures '.' !in "typing"
  {
    var s := "typing";
    assert forall i :: 0 <= i < |s| ==> s[i] != '.';
  }

  /** `from typing import <names>` without parentheses. */
  lemma {:induction false} MatchFromTyping(n: Node, x: Node)
    requires ImportsSlot(x)
    requires IsBranch(n, import_from) && |n.children| == 4 && n.children[3] == x
    requires IsLiteral(n.children[0], NAME, "from") && IsLiteral(n.children[1], NAME, "typing")
    requires IsLiteral(n.children[2], NAME, "import")
    ensures MatchImport(n) == ImportsCaptured(x)
  {
    assert n.children[3..] == [x];
  }

  // ---------------------------------------------------------------------------
  // make_pattern over the entries

  /** The `make_pattern` calls for the entries, in order. */
  function RegisterEntries(st: CastState, es: seq<Entry>): CastState {
    if es == [] then st
    else
      var e := es[|es| - 1];
      Register(RegisterEntries(st, es[..|es| - 1]), e.name, None, BoundAlias(e))
  }

  lemma {:induction false} RegisterEntriesKeepsConsistent(st: CastState, es: seq<Entry>)
    requires Consistent(st)
    ensures Consistent(RegisterEntries(st, es))
  {
    if es != [] {
      var e := es[|es| - 1];
      RegisterEntriesKeepsConsistent(st, es[..|es| - 1]);
      RegisterKeepsConsistent(RegisterEntries(st, es[..|es| - 1]), e.name, None, BoundAlias(e));
    }
  }

  /** One more entry is one more `make_pattern` call. */
  lemma {:induction false} RegisterEntriesSnoc(st: CastState, es: seq<Entry>, e: Entry)
    ensures RegisterEntries(st, es + [e]) == Register(RegisterEntries(st, es), e.name, None, BoundAlias(e))
  {
    assert (es + [e])[..|es|] == es;
  }

  /** Registration only appends: patterns already there stay first, in order. */
  lemma {:induction false} RegisterEntriesAppends(st: CastState, es: seq<Entry>)
    ensures var r := RegisterEntries(st, es);
      |st.usagePatterns| <= |r.usagePatterns| && r.usagePatterns[..|st.usagePatterns|] == st.usagePatterns
      && st.patterns <= r.patterns && r.imports == st.imports
  {
    if es != [] {
      RegisterEntriesAppends(st, es[..|es| - 1]);
    }
  }

  // ---------------------------------------------------------------------------
  // Grouping the replacement imports by module

  type Pair = (string, Option<string>)

  /**
   * The contribution of one imported name to the replacement imports: for a name the
   * table renames to a dotted target `module.suffix`, the pair (suffix, name or alias)
   * under `module`. Names with an action or an undotted target contribute nothing.
   */
  function Contribution(table: seq<(string, Replacement)>, e: Entry): (r: Option<(string, Pair)>)
    ensures r.None? <==> !(LookupIn(table, e.name).Some? && IsDotted(LookupIn(table, e.name).value))
    ensures r.Some? ==> LookupIn(table, e.name) == Some(RenameTo(r.value.0 + "." + r.value.1.0))
    ensures r.Some? ==> '.' !in r.value.1.0 && r.value.1.1 == ImportedAs(e)
  {
    match LookupIn(table, e.name)
    case Some(RenameTo(t)) =>
      if '.' in t then
        var (m, s) := RSplitDot(t);
        Some((m, (s, ImportedAs(e))))
      else None
    case _ => None
  }

  /** `replace_imports`: a dictionary from module to a set of pairs, in insertion order. */
  datatype Groups = Groups(order: seq<string>, members: map<string, set<Pair>>)

  const NoGroups: Groups := Groups([], map[])

  /** `replace_imports.setdefault(m, set()).add(x)`. */
  function AddTo(g: Groups, m: string, x: Pair): Groups {
    if m in g.members then Groups(g.order, g.members[m := g.members[m] + {x}])
    else Groups(g.order + [m], g.members[m := {x}])
  }

  /** The keys in insertion order, each once. */
  ghost predicate GroupsWellFormed(g: Groups) {
    (forall i, j :: 0 <= i < j < |g.order| ==> g.order[i] != g.order[j])
    && (forall m :: m in g.members <==> m in g.order)
  }

  /** The present values, in order. */
  function Somes<X>(os: seq<Option<X>>): seq<X> {
    if os == [] then []
    else Somes(os[..|os| - 1]) + if os[|os| - 1].Some? then [os[|os| - 1].value] else []
  }

  lemma {:induction false} SomesMembers<X>(os: seq<Option<X>>, c: X)
    ensures c in Somes(os) <==> exists k :: 0 <= k < |os| && os[k] == Some(c)
  {
    if os != [] {
      var init := os[..|os| - 1];
      SomesMembers(init, c);
      assert forall k :: 0 <= k < |init| ==> init[k] == os[k];
      if os[|os| - 1] == Some(c) {
        assert c in Somes(os);
      } else {
        assert c in Somes(os) <==> c in Somes(init);
      }
    }
  }

  function ContributionList(table: seq<(string, Replacement)>, es: seq<Entry>): (r: seq<Option<(string, Pair)>>)
    ensures |r| == |es| && forall k :: 0 <= k < |es| ==> r[k] == Contribution(table, es[k])
  {
    seq(|es|, k requires 0 <= k < |es| => Contribution(table, es[k]))
  }

  /** The contributions of the entries, in order. */
  function Contributions(table: seq<(string, Replacement)>, es: seq<Entry>): seq<(string, Pair)> {
    Somes(ContributionList(table, es))
  }

  /** The `setdefault(...).add(...)` calls for the contributions, in order. */
  function Collect(cs: seq<(string, Pair)>): Groups {
    if cs == [] then NoGroups
    else AddTo(Collect(cs[..|cs| - 1]), cs[|cs| - 1].0, cs[|cs| - 1].1)
  }

  function GroupsOf(table: seq<(string, Replacement)>, es: seq<Entry>): Groups {
    Collect(Contributions(table, es))
  }

  lemma {:induction false} SomesSnoc<X>(os: seq<Option<X>>, o: Option<X>)
    ensures Somes(os + [o]) == Somes(os) + if o.Some? then [o.value] else []
  {
    assert (os + [o])[..|os|] == os;
  }

  lemma {:induction false} CollectSnoc(cs: seq<(string, Pair)>, c: (string, Pair))
    ensures Collect(cs + [c]) == AddTo(Collect(cs), c.0, c.1)
  {
    assert (cs + [c])[..|cs|] == cs;
  }

  lemma {:induction false} ContributionListSnoc(table: seq<(string, Replacement)>, es: seq<Entry>, e: Entry)
    ensures ContributionList(table, es + [e]) == ContributionList(table, es) + [Contribution(table, e)]
  {
  }

  /** One more entry adds its contribution, if any, to the groups. */
  lemma {:induction false} GroupsOfSnoc(table: seq<(string, Replacement)>, es: seq<Entry>, e: Entry)
    ensures GroupsOf(table, es + [e]) ==
      match Contribution(table, e)
      case Some(c) => AddTo(GroupsOf(table, es), c.0, c.1)
      case None => GroupsOf(table, es)
  {
    var o := Contribution(table, e);
    var l := ContributionList(table, es);
    ContributionListSnoc(table, es, e);
    SomesSnoc(l, o);
    if o.Some? {
      CollectSnoc(Somes(l), o.value);
    } else {
      assert Somes(l) + [] == Somes(l);
    }
  }

  lemma {:induction false} CollectWellFormed(cs: seq<(string, Pair)>)
    ensures GroupsWellFormed(Collect(cs))
  {
    if cs != [] {
      CollectWellFormed(cs[..|cs| - 1]);
    }
  }

  lemma {:induction false} GroupsOfWellFormed(table: seq<(string, Replacement)>, es: seq<Entry>)
    ensures GroupsWellFormed(GroupsOf(table, es))
  {
    CollectWellFormed(Contributions(table, es));
  }

  /** The grouped pairs are exactly the contributed ones. */
  lemma {:induction false} CollectMembers(cs: seq<(string, Pair)>, m: string, x: Pair)
    ensures (m in Collect(cs).members && x in Collect(cs).members[m]) <==> (m, x) in cs
  {
    if cs != [] {
      var init := cs[..|cs| - 1];
      var last := cs[|cs| - 1];
      CollectMembers(init, m, x);
      assert cs == init + [last];
      assert (m, x) in cs <==> (m, x) in init || (m, x) == last;
      var g := Collect(init);
      assert Collect(cs) == AddTo(g, last.0, last.1);
      if m == last.0 {
        assert m in Collect(cs).members;
      }
    }
  }

  predicate Contributes(table: seq<(string, Replacement)>, e: Entry, m: string, x: Pair) {
    Contribution(table, e) == Some((m, x))
  }

  lemma {:induction false} ContributionsMembers(table: seq<(string, Replacement)>, es: seq<Entry>, m: string, x: Pair)
    ensures (m, x) in Contributions(table, es) <==> exists k :: 0 <= k < |es| && Contributes(table, es[k], m, x)
  {
    SomesMembers(ContributionList(table, es), (m, x));
  }

  /** A pair is grouped under a module exactly when some imported name contributes it there. */
  lemma {:induction false} GroupsOfMembers(table: seq<(string, Replacement)>, es: seq<Entry>, m: string, x: Pair)
    ensures (m in GroupsOf(table, es).members && x in GroupsOf(table, es).members[m])
      <==> exists k :: 0 <= k < |es| && Contributes(table, es[k], m, x)
  {
    CollectMembers(Contributions(table, es), m, x);
    ContributionsMembers(table, es, m, x);
  }

  /** Nothing is grouped when no imported name has a dotted replacement. */
  lemma {:induction false} NoDottedNoGroups(table: seq<(string, Replacement)>, es: seq<Entry>)
    requires forall k :: 0 <= k < |es| ==> Contribution(table, es[k]).None?
    ensures GroupsOf(table, es) == NoGroups
  {
    if Contributions(table, es) != [] {
      var c := Contributions(table, es)[0];
      SomesMembers(ContributionList(table, es), c);
    }
  }

  // ---------------------------------------------------------------------------
  // `import typing [as M]`

  /** The `make_pattern(type, modname=modname)` calls for the table, in order. */
  function RegisterModule(st: CastState, entries: seq<(string, Replacement)>, modname: string): CastState {
    if entries == [] then st
    else Register(RegisterModule(st, entries[..|entries| - 1], modname), entries[|entries| - 1].0, Some(modname), None)
  }

  /** `r` is a dotted replacement that lives in module `m`. */
  predicate FromModule(r: Replacement, m: string) {
    IsDotted(r) && RSplitDot(r.target).0 == m
  }

  /** The modules of the dotted replacements: the `replace_imports` set of lines 212-217. */
  function ModulesOf(entries: seq<(string, Replacement)>): set<string> {
    if entries == [] then {}
    else
      var rest := ModulesOf(entries[..|entries| - 1]);
      var r := entries[|entries| - 1].1;
      if IsDotted(r) then rest + {RSplitDot(r.target).0} else rest
  }

  lemma {:induction false} ModulesOfMembers(entries: seq<(string, Replacement)>, m: string)
    ensures m in ModulesOf(entries) <==> exists k :: 0 <= k < |entries| && FromModule(entries[k].1, m)
  {
    if entries != [] {
      var init := entries[..|entries| - 1];
      var last := |entries| - 1;
      ModulesOfMembers(init, m);
      assert forall k :: 0 <= k < |init| ==> init[k] == entries[k];
      if FromModule(entries[last].1, m) {
        assert m in ModulesOf(entries);
      } else {
        assert m in ModulesOf(entries) <==> m in ModulesOf(init);
      }
    }
  }

  /** After the table is registered through a module name, every name in it has its key. */
  lemma {:induction false} RegisterModuleKeys(st: CastState, entries: seq<(string, Replacement)>, modname: string)
    ensures var r := RegisterModule(st, entries, modname);
      && st.patterns <= r.patterns
      && forall k :: 0 <= k < |entries| ==> (entries[k].0, Some(modname), None) in r.patterns
  {
    if entries != [] {
      var init := entries[..|entries| - 1];
      RegisterModuleKeys(st, init, modname);
      forall k | 0 <= k < |init|
        ensures entries[k] == init[k]
      {
      }
    }
  }

  lemma {:induction false} RegisterModuleKnown(st: CastState, entries: seq<(string, Replacement)>, modname: string)
    requires forall k :: 0 <= k < |entries| ==> (entries[k].0, Some(modname), None) in st.patterns
    ensures RegisterModule(st, entries, modname) == st
  {
    if entries != [] {
      RegisterModuleKnown(st, entries[..|entries| - 1], modname);
    }
  }

  /** A second `import typing` (under the same name) in the file registers nothing new. */
  lemma {:induction false} RegisterModuleTwice(st: CastState, entries: seq<(string, Replacement)>, modname: string)
    ensures var once := RegisterModule(st, entries, modname);
      RegisterModule(once, entries, modname) == once
  {
    RegisterModuleKeys(st, entries, modname);
    RegisterModuleKnown(RegisterModule(st, entries, modname), entries, modname);
  }

  lemma {:induction false} RegisterModuleKeepsConsistent(st: CastState, entries: seq<(string, Replacement)>, modname: string)
    requires Consistent(st)
    ensures Consistent(RegisterModule(st, entries, modname))
  {
    if entries != [] {
      RegisterModuleKeepsConsistent(st, entries[..|entries| - 1], modname);
      RegisterKeepsConsistent(RegisterModule(st, entries[..|entries| - 1], modname), entries[|entries| - 1].0, Some(modname), None);
    }
  }

  /** Registering a longer part of the table only appends to the patterns registered for a shorter part. */
  lemma {:induction false} RegisterModulePrefix(st: CastState, entries: seq<(string, Replacement)>, j: nat, modname: string)
    requires j <= |entries|
    ensures var short := RegisterModule(st, entries[..j], modname).usagePatterns;
      var long := RegisterModule(st, entries, modname).usagePatterns;
      |short| <= |long| && long[..|short|] == short
    decreases |entries|
  {
    if j == |entries| {
      assert entries[..j] == entries;
    } else {
      var init := entries[..|entries| - 1];
      assert init[..j] == entries[..j];
      RegisterModulePrefix(st, init, j, modname);
    }
  }
}
