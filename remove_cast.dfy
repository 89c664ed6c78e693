/**
 * The fixer `FixRemoveCast` (strip_type_hints.py:110-306) as a class whose fields are
 * the per-file state the source keeps on the fixer object. Every method is proved
 * against the spec functions of module CastRewrites: `Match` computes `MatchSpec`,
 * `Transform` does what `TransformDone` allows, and both keep `Valid()`.
 */
module RemoveCast {
  import opened Wrappers
  import opened SyntaxTree
  import opened TypingTable
  import opened Builders
  import opened UsagePatterns
  import opened ImportPatterns
  import opened Edits
  import opened CastRewrites

  /** A list without repetitions that covers a set has the set's size. */
  lemma {:induction false} DistinctCard<X>(s: seq<X>, xs: set<X>)
    requires forall i, j :: 0 <= i < j < |s| ==> s[i] != s[j]
    requires forall i :: 0 <= i < |s| ==> s[i] in xs
    requires forall x :: x in xs ==> x in s
    ensures |s| == |xs|
    decreases |s|
  {
    if s != [] {
      var last := s[|s| - 1];
      var init := s[..|s| - 1];
      forall x | x in xs - {last}
        ensures x in init
      {
        var i :| 0 <= i < |s| && s[i] == x;
        assert i != |s| - 1;
        assert init[i] == x;
      }
      forall i | 0 <= i < |init|
        ensures init[i] in xs - {last}
      {
        assert init[i] == s[i];
      }
      DistinctCard(init, xs - {last});
    }
  }

  /** Iterating a Python set: its elements, each once, in an order the model leaves open. */
  method SetToSeq<X(==)>(xs: set<X>) returns (s: seq<X>)
    ensures Enumerates(s, xs)
  {
    s := [];
    var rest := xs;
    while rest != {}
      invariant rest <= xs
      invariant forall i, j :: 0 <= i < j < |s| ==> s[i] != s[j]
      invariant forall i :: 0 <= i < |s| ==> s[i] in xs && s[i] !in rest
      invariant forall x :: x in xs ==> x in rest || x in s
      decreases |rest|
    {
      var x :| x in rest;
      s := s + [x];
      rest := rest - {x};
    }
    DistinctCard(s, xs);
  }

  class FixRemoveCast {
    var usagePatterns: seq<UsagePattern>
    var aliases: map<string, string>
    var patterns: set<PatternKey>
    var imports: set<string>

    /** The fields as one value, for the spec functions. */
    function State(): CastState
      reads this
    {
      CastState(usagePatterns, aliases, patterns, imports)
    }

    /** Every alias has a target and every recorded key has its patterns. */
    ghost predicate Valid()
      reads this
    {
      Consistent(State())
    }

    constructor ()
      ensures State() == Fresh && Valid()
    {
      usagePatterns := [];
      aliases := map[];
      patterns := {};
      imports := {};
      FreshConsistent();
    }

    /** Lines 154-160: every file starts with empty state. */
    method StartTree()
      modifies this
      ensures State() == Fresh && Valid()
    {
      usagePatterns := [];
      aliases := map[];
      patterns := {};
      imports := {};
      FreshConsistent();
    }

    /** Lines 227-257: register the usage patterns for `name`, unless its key was seen. */
    method MakePattern(name: string, modname: Option<string>, alias: Option<string>)
      modifies this
      ensures State() == Register(old(State()), name, modname, alias)
    {
      if (name, modname, alias) in patterns {
        return;
      }
      var capture := ByName;
      var bound := name;
      if alias.Some? {
        capture := ByAlias;
        aliases := aliases[alias.value := name];
        bound := alias.value;
      }
      var shapes := if bound == "overload" then [DecoratorsShape, DecoratorShape] else [PowerShape];
      ghost var added := NewPatterns(bound, modname, capture);
      ghost var before := usagePatterns;
      assert |added| == |shapes| && forall i :: 0 <= i < |shapes| ==> added[i] == UsagePattern(shapes[i], modname, capture, bound);
      ghost var bindings := aliases;
      for k := 0 to |shapes|
        invariant usagePatterns == before + added[..k]
        invariant aliases == bindings && patterns == old(patterns) && imports == old(imports)
      {
        usagePatterns := usagePatterns + [UsagePattern(shapes[k], modname, capture, bound)];
        assert added[..k + 1] == added[..k] + [added[k]];
      }
      assert added[..|shapes|] == added;
      patterns := patterns + {(bound, modname, alias)};
    }

    /** Lines 178-203: register and group the names of a `from typing import ...`. */
    method MatchNames(table: seq<(string, Replacement)>, cs: seq<Node>) returns (r: MatchResult)
      modifies this
      ensures var reading := ReadEntries(cs);
        && State() == RegisterEntries(old(State()), reading.entries)
        && r == if reading.error.Some? then MatchCrash(reading.error.value) else FromImports(GroupsOf(table, reading.entries))
    {
      ghost var st0 := State();
      ghost var entries: seq<Entry> := [];
      var groups := NoGroups;
      for k := 0 to |cs|
        invariant ReadEntries(cs[..k]) == Reading(entries, None)
        invariant State() == RegisterEntries(st0, entries)
        invariant groups == GroupsOf(table, entries)
      {
        assert cs[..k + 1] == cs[..k] + [cs[k]];
        ReadEntriesSnoc(cs[..k], cs[k]);
        match ReadEntry(cs[k])
        case Skip =>
        case Crash(err) =>
          ReadEntriesCrashSticks(cs, k + 1);
          return MatchCrash(err);
        case Read(e) =>
          groups := AddEntry(table, groups, e, st0, entries);
          entries := entries + [e];
      }
      assert cs[..|cs|] == cs;
      return FromImports(groups);
    }

    /** Lines 181-198 for one imported name: its usage patterns and its contribution to the groups. */
    method AddEntry(table: seq<(string, Replacement)>, groups: Groups, e: Entry, ghost st0: CastState, ghost entries: seq<Entry>)
      returns (r: Groups)
      requires State() == RegisterEntries(st0, entries) && groups == GroupsOf(table, entries)
      modifies this
      ensures State() == RegisterEntries(st0, entries + [e]) && r == GroupsOf(table, entries + [e])
    {
      MakePattern(e.name, None, BoundAlias(e));
      RegisterEntriesSnoc(st0, entries, e);
      r := AddContribution(table, groups, e);
      GroupsOfSnoc(table, entries, e);
    }

    /** Lines 181-184 and 189-193: `replace_imports.setdefault(module, set()).add(...)` for a dotted replacement. */
    static method AddContribution(table: seq<(string, Replacement)>, groups: Groups, e: Entry) returns (r: Groups)
      ensures r == match Contribution(table, e) case Some(c) => AddTo(groups, c.0, c.1) case None => groups
    {
      r := groups;
      var replacement := LookupIn(table, e.name);
      if replacement.Some? && replacement.value.RenameTo? && '.' in replacement.value.target {
        var (home, suffix) := RSplitDot(replacement.value.target);
        r := AddTo(groups, home, (suffix, ImportedAs(e)));
      }
    }

    /** Lines 209-220: register every table name under the module's own name, and collect the modules. */
    method MatchModule(table: seq<(string, Replacement)>, modname: string) returns (modules: set<string>)
      modifies this
      ensures State() == RegisterModule(old(State()), table, modname)
      ensures modules == ModulesOf(table)
    {
      ghost var st0 := State();
      modules := {};
      for k := 0 to |table|
        invariant State() == RegisterModule(st0, table[..k], modname)
        invariant modules == ModulesOf(table[..k])
      {
        assert table[..k + 1][..k] == table[..k];
        var (name, replacement) := table[k];
        MakePattern(name, Some(modname), None);
        if replacement.RenameTo? && '.' in replacement.target {
          var (home, _) := RSplitDot(replacement.target);
          modules := modules + {home};
        }
      }
      assert table[..|table|] == table;
    }

    /** Lines 162-225: `match(node)`, with the state it leaves. */
    method Match(n: Node) returns (r: MatchResult)
      modifies this
      ensures (State(), r) == MatchSpec(Types, old(State()), n)
    {
      match MatchImport(n)
      case ImportsCaptured(x) =>
        r := MatchNames(Types, ImportedNodes(x));
      case ModuleCaptured(m) =>
        if m.Branch? {
          return MatchCrash(AttributeError);
        }
        var modules := MatchModule(Types, m.value);
        r := ModuleImport(modules);
      case NotAnImport =>
        var k := FindUsage(usagePatterns, n);
        if k.None? {
          r := NoMatch;
        } else {
          r := Usage(usagePatterns[k.value].capture, usagePatterns[k.value].name);
        }
    }

    /** `match` keeps the fields consistent and leaves `imports` alone. */
    method MatchValid(n: Node) returns (r: MatchResult)
      requires Valid()
      modifies this
      ensures Valid() && imports == old(imports)
      ensures (State(), r) == MatchSpec(Types, old(State()), n)
    {
      MatchKeepsConsistent(Types, State(), n);
      r := Match(n);
    }

    /** Lines 273-280: delete the import statement (and a `;` before it, and its emptied line). */
    method DeleteImport(tree: Tree, p: Path) returns (o: Outcome)
      requires ValidPath(tree.root, p)
      modifies tree
      ensures Edit(o, tree.root) == DeleteImportEdit(old(tree.root), p)
    {
      if p == [] {
        return Raised(AttributeError);
      }
      ghost var t := tree.root;
      ParentOf(t, p);
      var parent := Parent(p);
      var i := Index(p);
      var before := At(tree.root, parent).children;
      if i > 0 && IsToken(before[i - 1], SEMI) {
        RemovePreviousThenNode(t, p);
        tree.Remove(parent + [i - 1]);
        tree.Remove(parent + [i - 1]);
      } else {
        RemoveAtEffect(t, p);
        tree.Remove(p);
      }
      assert tree.root == WithoutImport(t, p);
      var after := At(tree.root, parent).children;
      if |after| == 1 && IsToken(after[0], NEWLINE) {
        tree.Remove(parent);
      }
      return Completed;
    }

    /** Lines 264-268: `import m` for each module not yet imported in this file, one per line. */
    method ReplaceModuleImport(tree: Tree, p: Path, ms: set<string>) returns (o: Outcome)
      requires ValidPath(tree.root, p)
      modifies this, tree
      ensures State() == old(State()).(imports := old(imports) + ms)
      ensures exists order ::
        && Enumerates(order, ms - old(imports))
        && Edit(o, tree.root) == ReplaceWith(old(tree.root), p, Interleave(ModuleImportNodes(order), Newline()))
    {
      var all := SetToSeq(ms);
      var imps: seq<Node> := [];
      ghost var order: seq<string> := [];
      for k := 0 to |all|
        invariant imps == ModuleImportNodes(order)
        invariant forall i, j :: 0 <= i < j < |order| ==> order[i] != order[j]
        invariant forall i :: 0 <= i < |order| ==> order[i] in all[..k] && order[i] !in imports
        invariant forall j :: 0 <= j < k && all[j] !in imports ==> all[j] in order
      {
        if all[k] !in imports {
          imps := imps + [ModuleImportNode(all[k])];
          order := order + [all[k]];
        }
      }
      forall x | x in ms - imports
        ensures x in order
      {
        var j :| 0 <= j < |all| && all[j] == x;
      }
      DistinctCard(order, ms - imports);
      assert Enumerates(order, ms - imports);
      imports := imports + ms;
      var replacement := WithSeparator(imps, Newline());
      if p == [] {
        return Raised(AssertionError);
      }
      tree.Replace(p, replacement);
      return Completed;
    }

    /** Line 271: `FromImport(m, names)` for each group, in the dictionary's order. */
    static method BuildFromImports(g: Groups) returns (froms: seq<Node>, ghost names: seq<seq<Pair>>)
      requires forall k :: 0 <= k < |g.order| ==> g.order[k] in g.members
      ensures |names| == |g.order| && froms == FromImportNodes(g.order, names)
      ensures forall k :: 0 <= k < |g.order| ==> Enumerates(names[k], g.members[g.order[k]])
    {
      froms := [];
      names := [];
      for k := 0 to |g.order|
        invariant |froms| == k && |names| == k
        invariant forall j :: 0 <= j < k ==> froms[j] == FromImportNode(g.order[j], names[j])
        invariant forall j :: 0 <= j < k ==> Enumerates(names[j], g.members[g.order[j]])
      {
        var pairs := SetToSeq(g.members[g.order[k]]);
        var f := FromImport(g.order[k], pairs);
        froms := froms + [f];
        ghost var prev := names;
        names := names + [pairs];
        forall j | 0 <= j < k + 1
          ensures Enumerates(names[j], g.members[g.order[j]])
        {
          if j < k {
            assert names[j] == prev[j];
          }
        }
      }
    }

    /** Line 271: the groups, one `from m import ...` per line, replace the import. */
    method ReplaceFromImport(tree: Tree, p: Path, g: Groups) returns (o: Outcome)
      requires ValidPath(tree.root, p) && g.members != map[]
      requires forall k :: 0 <= k < |g.order| ==> g.order[k] in g.members
      modifies tree
      ensures TransformDone(Types, State(), old(tree.root), p, FromImports(g), State(), Edit(o, tree.root))
    {
      var froms, names := BuildFromImports(g);
      var replacement := WithSeparator(froms, Newline());
      if p == [] {
        o := Raised(AssertionError);
      } else {
        tree.Replace(p, replacement);
        o := Completed;
      }
      assert Edit(o, tree.root) == ReplaceWith(old(tree.root), p, Interleave(FromImportNodes(g.order, names), Newline()));
    }

    /** Lines 293-304: rename the use to the table's target. */
    static method Rename(tree: Tree, p: Path, target: string) returns (o: Outcome)
      requires ValidPath(tree.root, p)
      modifies tree
      ensures Edit(o, tree.root) == RenameEdit(old(tree.root), p, target)
    {
      if '.' in target {
        var node := At(tree.root, p);
        var i := SkipDotTrailers(Children(node));
        if i.None? {
          return Raised(IndexError);
        }
        if i.value > 1 {
          if p == [] {
            return Raised(AssertionError);
          }
          tree.Replace(p, [DottedName(target, "")]);
          return Completed;
        }
        if i.value < |Children(node)| {
          var square := node.children[i.value];
          if IsBranch(square, trailer) && |square.children| == 3 && IsToken(square.children[0], LSQB) {
            ChildPath(tree.root, p, i.value);
            tree.Remove(p + [i.value]);
          }
        }
        return Completed;
      }
      if p == [] {
        return Raised(AssertionError);
      }
      tree.Replace(p, [Name(target, "")]);
      return Completed;
    }

    /** Lines 282-304: find the `typing` name behind the use and apply its table entry. */
    method RewriteUsage(table: seq<(string, Replacement)>, tree: Tree, p: Path, c: Capture, v: string) returns (o: Outcome)
      requires ValidPath(tree.root, p)
      modifies tree
      ensures Edit(o, tree.root) == RewriteUsageEdit(table, aliases, old(tree.root), p, c, v)
    {
      var name := v;
      if c.ByAlias? {
        if v !in aliases {
          return Raised(KeyError);
        }
        name := aliases[v];
      }
      match LookupIn(table, name)
      case None => o := Completed;
      case Some(ViaRemoveExpr) => o := RemoveExpr(tree, p);
      case Some(ViaReplaceCast) => o := ReplaceCast(tree, p);
      case Some(ViaRemoveLine) => o := RemoveLine(tree, p);
      case Some(RenameTo(target)) => o := Rename(tree, p, target);
    }

    /** Lines 260-280 for a `from typing import ...`: the grouped imports replace it, or it is deleted. */
    method TransformFromImports(tree: Tree, p: Path, g: Groups) returns (o: Outcome)
      requires ValidPath(tree.root, p) && GroupsWellFormed(g)
      modifies tree
      ensures TransformDone(Types, State(), old(tree.root), p, FromImports(g), State(), Edit(o, tree.root))
    {
      if g.members == map[] {
        o := DeleteImport(tree, p);
      } else {
        o := ReplaceFromImport(tree, p, g);
      }
    }

    /** Lines 260-280 for an `import typing`: the missing modules replace it, or it is deleted. */
    method TransformModuleImport(tree: Tree, p: Path, ms: set<string>) returns (o: Outcome)
      requires Valid() && ValidPath(tree.root, p)
      modifies this, tree
      ensures Valid()
      ensures TransformDone(Types, old(State()), old(tree.root), p, ModuleImport(ms), State(), Edit(o, tree.root))
    {
      if ms == {} {
        o := DeleteImport(tree, p);
      } else {
        ConsistentWithImports(State(), imports + ms);
        o := ReplaceModuleImport(tree, p, ms);
      }
    }

    /** Lines 259-306: `transform(node, results)` for a result `match` returned. */
    method Transform(tree: Tree, p: Path, r: MatchResult) returns (o: Outcome)
      requires Valid() && ValidPath(tree.root, p) && Transformable(At(tree.root, p), r)
      requires r.FromImports? ==> GroupsWellFormed(r.groups)
      modifies this, tree
      ensures Valid()
      ensures TransformDone(Types, old(State()), old(tree.root), p, r, State(), Edit(o, tree.root))
    {
      match r
      case FromImports(g) =>
        o := TransformFromImports(tree, p, g);
      case ModuleImport(ms) =>
        o := TransformModuleImport(tree, p, ms);
      case Usage(c, v) =>
        o := RewriteUsage(Types, tree, p, c, v);
    }
  }
}
