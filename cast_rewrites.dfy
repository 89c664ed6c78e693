/**
 * What `FixRemoveCast.match` and `FixRemoveCast.transform` (strip_type_hints.py:162-306)
 * compute, as functions of the fixer's per-file state and the tree. The class in
 * module RemoveCast is proved against these.
 */
module CastRewrites {
  import opened Wrappers
  import opened SyntaxTree
  import opened TypingTable
  import opened Builders
  import opened UsagePatterns
  import opened ImportPatterns
  import opened Edits

  /** What `match` returns: the kind of `replace_imports` it stored, or the usage capture. */
  datatype MatchResult =
    | NoMatch
    | MatchCrash(error: PyError)
    | FromImports(groups: Groups)          // `replace_imports` is a dict
    | ModuleImport(modules: set<string>)   // `replace_imports` is a set
    | Usage(capture: Capture, value: string)

  /** The children read at lines 179-203: a name list's children, or the one `as` import. */
  function ImportedNodes(x: Node): seq<Node> {
    if IsBranch(x, import_as_names) then x.children else [x]
  }

  /** `match(node)`: the new state and the result. */
  function MatchSpec(table: seq<(string, Replacement)>, st: CastState, n: Node): (CastState, MatchResult) {
    match MatchImport(n)
    case ImportsCaptured(x) =>
      var r := ReadEntries(ImportedNodes(x));
      var st' := RegisterEntries(st, r.entries);
      if r.error.Some? then (st', MatchCrash(r.error.value))
      else (st', FromImports(GroupsOf(table, r.entries)))
    case ModuleCaptured(m) =>
      if m.Branch? then (st, MatchCrash(AttributeError))
      else (RegisterModule(st, table, m.value), ModuleImport(ModulesOf(table)))
    case NotAnImport =>
      match FirstMatch(st.usagePatterns, n)
      case None => (st, NoMatch)
      case Some(k) => (st, Usage(st.usagePatterns[k].capture, st.usagePatterns[k].name))
  }

  predicate IsImportNode(n: Node) {
    IsBranch(n, import_from) || IsBranch(n, import_name)
  }

  /** Import results come from import statements, usage results from uses. */
  lemma {:induction false} MatchKinds(table: seq<(string, Replacement)>, st: CastState, n: Node)
    ensures var r := MatchSpec(table, st, n).1;
      && ((r.FromImports? || r.ModuleImport?) ==> IsImportNode(n))
      && (r.Usage? ==> IsBranch(n, power) || IsBranch(n, decorated))
  {
    var r := MatchSpec(table, st, n).1;
    if r.Usage? {
      var k := FirstMatch(st.usagePatterns, n).value;
      assert Matches(st.usagePatterns[k], n);
    }
  }

  lemma {:induction false} MatchKeepsConsistent(table: seq<(string, Replacement)>, st: CastState, n: Node)
    requires Consistent(st)
    ensures Consistent(MatchSpec(table, st, n).0)
    ensures MatchSpec(table, st, n).0.imports == st.imports
  {
    match MatchImport(n)
    case ImportsCaptured(x) =>
      var r := ReadEntries(ImportedNodes(x));
      RegisterEntriesKeepsConsistent(st, r.entries);
      RegisterEntriesAppends(st, r.entries);
    case ModuleCaptured(m) =>
      if m.Leaf? {
        RegisterModuleKeepsConsistent(st, table, m.value);
        RegisterModuleImports(st, table, m.value);
      }
    case NotAnImport =>
  }

  lemma {:induction false} RegisterModuleImports(st: CastState, entries: seq<(string, Replacement)>, modname: string)
    ensures RegisterModule(st, entries, modname).imports == st.imports
  {
    if entries != [] {
      RegisterModuleImports(st, entries[..|entries| - 1], modname);
    }
  }

  /** The grouped replacement imports have each module once, in insertion order. */
  lemma {:induction false} MatchGroupsWellFormed(table: seq<(string, Replacement)>, st: CastState, n: Node)
    requires MatchSpec(table, st, n).1.FromImports?
    ensures GroupsWellFormed(MatchSpec(table, st, n).1.groups)
  {
    match MatchImport(n)
    case ImportsCaptured(x) =>
      var r := ReadEntries(ImportedNodes(x));
      assert MatchSpec(table, st, n).1 == FromImports(GroupsOf(table, r.entries));
      GroupsOfWellFormed(table, r.entries);
    case _ =>
  }

  /** A use captured under `alias` always names a recorded alias: line 286 never raises KeyError. */
  lemma {:induction false} MatchedAliasIsRecorded(table: seq<(string, Replacement)>, st: CastState, n: Node)
    requires Consistent(st)
    requires MatchSpec(table, st, n).1.Usage? && MatchSpec(table, st, n).1.capture == ByAlias
    ensures MatchSpec(table, st, n).1.value in MatchSpec(table, st, n).0.aliases
  {
    var k := FirstMatch(st.usagePatterns, n).value;
    assert st.usagePatterns[k].capture == ByAlias;
  }

  // ---------------------------------------------------------------------------
  // transform: import statements

  /**
   * The tree without the node, and without a `;` right before it (lines 274-278); the
   * parent keeps every other child in order.
   */
  function WithoutImport(t: Node, p: Path): (r: Node)
    requires ValidPath(t, p) && p != []
    ensures ValidPath(t, Parent(p)) && At(t, Parent(p)).Branch? && Index(p) < |At(t, Parent(p)).children|
    ensures var before := At(t, Parent(p)).children;
      var i := Index(p);
      && ValidPath(r, Parent(p)) && IsBranch(At(r, Parent(p)), At(t, Parent(p)).symbol)
      && At(r, Parent(p)).children ==
         if i > 0 && IsToken(before[i - 1], SEMI) then before[..i - 1] + before[i + 1..]
         else before[..i] + before[i + 1..]
  {
    ParentOf(t, p);
    var before := At(t, Parent(p)).children;
    var i := Index(p);
    if i > 0 && IsToken(before[i - 1], SEMI) then
      RemovePreviousThenNode(t, p);
      var prev := Parent(p) + [i - 1];
      RemoveAt(RemoveAt(t, prev), prev)
    else
      RemoveAtEffect(t, p);
      RemoveAt(t, p)
  }

  /** Lines 274-280: delete the import, then its line if only the newline is left. */
  function DeleteImportEdit(t: Node, p: Path): Edit
    requires ValidPath(t, p)
  {
    if p == [] then Edit(Raised(AttributeError), t)
    else
      var t1 := WithoutImport(t, p);
      var after := At(t1, Parent(p)).children;
      if |after| == 1 && IsToken(after[0], NEWLINE) then Edit(Completed, RemoveNode(t1, Parent(p)))
      else Edit(Completed, t1)
  }

  /** An import alone on its line (`import typing` + NEWLINE) leaves with the line. */
  lemma {:induction false} DeleteImportAloneOnLine(t: Node, p: Path)
    requires ValidPath(t, p) && |p| >= 2
    requires ValidPath(t, Parent(p)) && At(t, Parent(p)).Branch?
    requires var before := At(t, Parent(p)).children;
      |before| == 2 && Index(p) == 0 && IsToken(before[1], NEWLINE)
    ensures DeleteImportEdit(t, p).outcome == Completed
    ensures var g := Parent(Parent(p));
      ValidPath(t, g) && At(t, g).Branch? && Index(Parent(p)) < |At(t, g).children|
    ensures var r := DeleteImportEdit(t, p).tree;
      var q := Parent(p);
      && ValidPath(r, Parent(q)) && At(r, Parent(q)).Branch?
      && At(r, Parent(q)).children == At(t, Parent(q)).children[..Index(q)] + At(t, Parent(q)).children[Index(q) + 1..]
  {
    var q := Parent(p);
    var t1 := WithoutImport(t, p);
    var before := At(t, q).children;
    assert At(t1, q).children == [before[1]];
    ParentOf(t, q);
    ParentOf(t1, q);
    RemoveAtEffect(t1, q);
    RemoveAtEffect(t, p);
    assert Disjoint(Parent(q), Parent(q)) == false;
    PutAbove(t, p);
  }

  /** Removing a child changes its parent's parent only in the parent's slot. */
  lemma {:induction false} PutAbove(t: Node, p: Path)
    requires ValidPath(t, p) && |p| >= 2
    ensures ValidPath(t, Parent(p)) && ValidPath(t, Parent(Parent(p)))
    ensures ValidPath(RemoveAt(t, p), Parent(Parent(p)))
    ensures var g := Parent(Parent(p));
      var before := At(t, g);
      var after := At(RemoveAt(t, p), g);
      && after.Branch? && before.Branch? && after.symbol == before.symbol
      && |after.children| == |before.children|
      && forall k :: 0 <= k < |before.children| && k != Index(Parent(p)) ==> after.children[k] == before.children[k]
  {
    var q := Parent(p);
    var g := Parent(q);
    ParentOf(t, p);
    ParentOf(t, q);
    RemoveAtEffect(t, p);
    assert q == g + [Index(q)];
    PutBelow(t, g, [Index(q)], Splice(At(t, q), Index(p), []));
  }

  function ModuleImportNode(m: string): Node {
    Branch(import_name, [Name("import", ""), DottedName(m, " ")])
  }

  function ModuleImportNodes(ms: seq<string>): (r: seq<Node>)
    ensures |r| == |ms|
  {
    seq(|ms|, k requires 0 <= k < |ms| => ModuleImportNode(ms[k]))
  }

  function FromImportNodes(order: seq<string>, names: seq<seq<Pair>>): (r: seq<Node>)
    requires |names| == |order|
    ensures |r| == |order|
  {
    seq(|order|, k requires 0 <= k < |order| => FromImportNode(order[k], names[k]))
  }

  /** `s` lists the elements of `xs`, each once, in some order (Python set iteration). */
  ghost predicate Enumerates<X>(s: seq<X>, xs: set<X>) {
    && |s| == |xs|
    && (forall i, j :: 0 <= i < j < |s| ==> s[i] != s[j])
    && (forall i :: 0 <= i < |s| ==> s[i] in xs)
    && (forall x :: x in xs ==> x in s)
  }

  // ---------------------------------------------------------------------------
  // transform: uses

  /** Lines 293-304: the use is renamed to the table's target (with the bounded attribute loop). */
  function RenameEdit(t: Node, p: Path, target: string): Edit
    requires ValidPath(t, p)
  {
    if '.' in target then
      var node := At(t, p);
      match AttributeRunEnd(Children(node), 1)
      case None => Edit(Raised(IndexError), t)
      case Some(i) =>
        if i > 1 then ReplaceWith(t, p, [DottedName(target, "")])
        else if i < |Children(node)| then
          var square := node.children[i];
          if IsBranch(square, trailer) && |square.children| == 3 && IsToken(square.children[0], LSQB) then
            ChildPath(t, p, i);
            Edit(Completed, RemoveAt(t, p + [i]))
          else Edit(Completed, t)
        else Edit(Completed, t)
    else ReplaceWith(t, p, [Name(target, "")])
  }

  /** The rename as written: the attribute loop of line 295 may read past the last child. */
  function RenameEditAsWritten(t: Node, p: Path, target: string): Edit
    requires ValidPath(t, p)
  {
    if '.' in target then
      var node := At(t, p);
      match TrailerRunEnd(Children(node), 1)
      case None => Edit(Raised(IndexError), t)
      case Some(i) =>
        if i > 1 then ReplaceWith(t, p, [DottedName(target, "")])
        else
          var square := node.children[i];
          if IsBranch(square, trailer) && |square.children| == 3 && IsToken(square.children[0], LSQB) then
            ChildPath(t, p, i);
            Edit(Completed, RemoveAt(t, p + [i]))
          else Edit(Completed, t)
    else ReplaceWith(t, p, [Name(target, "")])
  }

  /** Lines 282-304: which `typing` name the capture stands for, and what is done to the use. */
  function RewriteUsageEdit(
    table: seq<(string, Replacement)>, aliases: map<string, string>, t: Node, p: Path, c: Capture, v: string): Edit
    requires ValidPath(t, p)
  {
    if c.ByAlias? && v !in aliases then Edit(Raised(KeyError), t)
    else
      var name := if c.ByName? then v else aliases[v];
      match LookupIn(table, name)
      case None => Edit(Completed, t)
      case Some(ViaRemoveExpr) => RemoveExprEdit(t, p)
      case Some(ViaReplaceCast) => ReplaceCastEdit(t, p)
      case Some(ViaRemoveLine) => RemoveLineEdit(t, p)
      case Some(RenameTo(target)) => RenameEdit(t, p, target)
  }

  /**
   * `transform(node, results)` for each kind of result `match` returns. Set iteration
   * order is left open: any enumeration of each set is allowed.
   */
  ghost predicate TransformDone(table: seq<(string, Replacement)>, st: CastState, t: Node, p: Path, r: MatchResult, st': CastState, e: Edit)
    requires ValidPath(t, p)
  {
    match r
    case FromImports(g) =>
      st' == st &&
      if g.members == map[] then e == DeleteImportEdit(t, p)
      else exists names: seq<seq<Pair>> ::
        && |names| == |g.order|
        && (forall k :: 0 <= k < |g.order| ==> g.order[k] in g.members && Enumerates(names[k], g.members[g.order[k]]))
        && e == ReplaceWith(t, p, Interleave(FromImportNodes(g.order, names), Newline()))
    case ModuleImport(ms) =>
      if ms == {} then st' == st && e == DeleteImportEdit(t, p)
      else
        && st' == st.(imports := st.imports + ms)
        && exists order :: Enumerates(order, ms - st.imports) && e == ReplaceWith(t, p, Interleave(ModuleImportNodes(order), Newline()))
    case Usage(c, v) => st' == st && e == RewriteUsageEdit(table, st.aliases, t, p, c, v)
    case _ => false
  }

  /** The results `transform` is called with: what `match` returns for a node it accepts. */
  predicate Transformable(n: Node, r: MatchResult) {
    match r
    case FromImports(_) => IsImportNode(n)
    case ModuleImport(_) => IsImportNode(n)
    case Usage(_, _) => !IsImportNode(n)
    case _ => false
  }

  lemma {:induction false} MatchIsTransformable(table: seq<(string, Replacement)>, st: CastState, n: Node)
    requires !MatchSpec(table, st, n).1.NoMatch? && !MatchSpec(table, st, n).1.MatchCrash?
    ensures Transformable(n, MatchSpec(table, st, n).1)
  {
    MatchKinds(table, st, n);
  }

  /**
   * Each module is imported at most once per file: after one `import typing` was
   * rewritten, a second one in the same file is removed and adds no import.
   */
  lemma {:induction false} SecondModuleImportEmitsNothing(
    table: seq<(string, Replacement)>, st: CastState, t: Node, p: Path, ms: set<string>, st': CastState, e: Edit,
    t2: Node, p2: Path, st'': CastState, e2: Edit)
    requires ValidPath(t, p) && ValidPath(t2, p2) && p2 != [] && ms != {}
    requires TransformDone(table, st, t, p, ModuleImport(ms), st', e)
    requires TransformDone(table, st', t2, p2, ModuleImport(ms), st'', e2)
    ensures e2 == Edit(Completed, ReplaceAt(t2, p2, []))
    ensures st''.imports == st'.imports
  {
    var order :| Enumerates(order, ms - st'.imports) && e2 == ReplaceWith(t2, p2, Interleave(ModuleImportNodes(order), Newline()));
    assert ms - st'.imports == {};
  }

  /** Each emitted `import m` is for a module not yet imported in the file, and all such modules are emitted. */
  lemma {:induction false} ModuleImportEmitsMissing(table: seq<(string, Replacement)>, st: CastState, t: Node, p: Path, ms: set<string>, st': CastState, e: Edit)
    requires ValidPath(t, p) && p != [] && ms != {}
    requires TransformDone(table, st, t, p, ModuleImport(ms), st', e)
    ensures st'.imports == st.imports + ms
    ensures exists order :: 
      && (forall m :: m in order <==> m in ms && m !in st.imports)
      && e == Edit(Completed, ReplaceAt(t, p, Interleave(ModuleImportNodes(order), Newline())))
  {
    var order :| Enumerates(order, ms - st.imports) && e == ReplaceWith(t, p, Interleave(ModuleImportNodes(order), Newline()));
  }

  // ---------------------------------------------------------------------------
  // Properties of the rename

  /** A dotted replacement reached through attribute access replaces the whole use. */
  lemma {:induction false} RenameThroughAttribute(t: Node, p: Path, target: string)
    requires ValidPath(t, p) && p != [] && '.' in target
    requires var i := AttributeRunEnd(Children(At(t, p)), 1); i.Some? && i.value > 1
    ensures RenameEdit(t, p, target) == Edit(Completed, ReplaceAt(t, p, [DottedName(target, "")]))
    ensures Text(DottedName(target, "")) == target
  {
    DottedNameRoundTrip(target, "");
  }

  /** Without attribute access a dotted replacement drops only a `[...]` subscript after the name. */
  lemma {:induction false} RenameDropsSubscript(t: Node, p: Path, target: string)
    requires ValidPath(t, p) && '.' in target
    requires var n := At(t, p);
      && n.Branch? && |n.children| >= 2
      && IsBranch(n.children[1], trailer) && |n.children[1].children| == 3 && IsToken(n.children[1].children[0], LSQB)
    ensures var r := RenameEdit(t, p, target);
      var before := At(t, p).children;
      && r.outcome == Completed
      && ValidPath(r.tree, p)
      && At(r.tree, p) == Branch(At(t, p).symbol, before[..1] + before[2..])
  {
    var n := At(t, p);
    assert AttributeRunEnd(n.children, 1) == Some(1) by {
      assert !IsDotTrailer(n.children[1]) && !IsEmptyTrailer(n.children[1]);
    }
    ChildPath(t, p, 1);
    assert RenameEdit(t, p, target) == Edit(Completed, RemoveAt(t, p + [1]));
    assert Parent(p + [1]) == p && Index(p + [1]) == 1;
    RemoveAtParent(t, p + [1]);
  }

  /** Without attribute access and without a subscript, a dotted replacement changes nothing. */
  lemma {:induction false} RenameKeepsPlainUse(t: Node, p: Path, target: string)
    requires ValidPath(t, p) && '.' in target
    requires var n := At(t, p);
      && n.Branch? && |n.children| >= 2 && !IsDotTrailer(n.children[1]) && !IsEmptyTrailer(n.children[1])
      && !(IsBranch(n.children[1], trailer) && |n.children[1].children| == 3 && IsToken(n.children[1].children[0], LSQB))
    ensures RenameEdit(t, p, target) == Edit(Completed, t)
  {
  }

  /** An undotted replacement replaces the whole use by a plain name. */
  lemma {:induction false} RenameUndotted(t: Node, p: Path, target: string)
    requires ValidPath(t, p) && p != [] && '.' !in target
    ensures RenameEdit(t, p, target) == Edit(Completed, ReplaceAt(t, p, [Name(target, "")]))
  {
  }

  /** Names outside the table are left alone. */
  lemma {:induction false} UnknownNameUntouched(table: seq<(string, Replacement)>, aliases: map<string, string>, t: Node, p: Path, v: string)
    requires ValidPath(t, p) && LookupIn(table, v).None?
    ensures RewriteUsageEdit(table, aliases, t, p, ByName, v) == Edit(Completed, t)
  {
  }

  /** The only KeyError of a rewrite is the alias lookup of line 286. */
  lemma {:induction false} RewriteKeyErrorOnlyFromAlias(
    table: seq<(string, Replacement)>, aliases: map<string, string>, t: Node, p: Path, c: Capture, v: string)
    requires ValidPath(t, p)
    ensures RewriteUsageEdit(table, aliases, t, p, c, v).outcome == Raised(KeyError) <==> c.ByAlias? && v !in aliases
  {
  }

  /** With a consistent state, a matched use never raises KeyError. */
  lemma {:induction false} MatchedUseNoKeyError(table: seq<(string, Replacement)>, st: CastState, n: Node, t: Node, p: Path)
    requires Consistent(st) && ValidPath(t, p)
    requires MatchSpec(table, st, n).1.Usage?
    ensures var (st', r) := MatchSpec(table, st, n);
      RewriteUsageEdit(table, st'.aliases, t, p, r.capture, r.value).outcome != Raised(KeyError)
  {
    var (st', r) := MatchSpec(table, st, n);
    if r.capture == ByAlias {
      MatchedAliasIsRecorded(table, st, n);
    }
    RewriteKeyErrorOnlyFromAlias(table, st'.aliases, t, p, r.capture, r.value);
  }

  // ---------------------------------------------------------------------------
  // The attribute loop at line 295 runs past the end of a bare `typing.X`

  /** As written, a dotted rename of a bare attribute use raises IndexError. */
  lemma {:induction false} BareAttributeRenameRaises(t: Node, p: Path, head: string, name: string, target: string)
    requires ValidPath(t, p) && At(t, p) == BareAttributeUse(head, name) && '.' in target
    ensures RenameEditAsWritten(t, p, target) == Edit(Raised(IndexError), t)
  {
    var cs := Children(At(t, p));
    assert IsDotTrailer(cs[1]);
    assert TrailerRunEnd(cs, 2) == None;
  }

  /** With the bounded loop, a bare attribute use of a name the table renames to a dotted target is replaced. */
  lemma {:induction false} RewriteOfBareAttribute(
    table: seq<(string, Replacement)>, aliases: map<string, string>, t: Node, p: Path, head: string, name: string, target: string)
    requires ValidPath(t, p) && p != [] && At(t, p) == BareAttributeUse(head, name)
    requires LookupIn(table, name) == Some(RenameTo(target)) && '.' in target
    ensures RewriteUsageEdit(table, aliases, t, p, ByName, name) == Edit(Completed, ReplaceAt(t, p, [DottedName(target, "")]))
  {
    RenameOfBareAttribute(t, p, head, name, target);
  }

  lemma {:induction false} AbstractSetEntry()
    ensures Lookup("AbstractSet") == Some(RenameTo("collections.abc.Set"))
    ensures '.' in "collections.abc.Set"
  {
    LookupAt(Types, 0, "AbstractSet");
    assert "collections.abc.Set"[11] == '.';
  }

  /** The first pattern `import typing` registers is the one for the table's first name. */
  lemma {:induction false} FirstTypingPattern(table: seq<(string, Replacement)>)
    requires |table| >= 1 && table[0].0 != "overload"
    ensures var short := RegisterModule(Fresh, table[..1], "typing").usagePatterns;
      short == [UsagePattern(PowerShape, Some("typing"), ByName, table[0].0)]
  {
    assert table[..1] == [table[0]];
    assert [table[0]][..0] == [];
  }

  /** After `import typing`, the use `typing.X` of the table's first name X is matched by its usage pattern. */
  lemma {:induction false} FirstNameUseMatched(table: seq<(string, Replacement)>, n: Node)
    requires |table| >= 1 && table[0].0 != "overload" && n == BareAttributeUse("typing", table[0].0)
    ensures var st := RegisterModule(Fresh, table, "typing");
      MatchSpec(table, st, n) == (st, Usage(ByName, table[0].0))
  {
    var ps := RegisterModule(Fresh, table, "typing").usagePatterns;
    FirstPatternMatches(table, n);
    assert MatchImport(n) == NotAnImport;
    assert ps[0] == UsagePattern(PowerShape, Some("typing"), ByName, table[0].0);
  }

  /** The first registered pattern is the first to match the use. */
  lemma {:induction false} FirstPatternMatches(table: seq<(string, Replacement)>, n: Node)
    requires |table| >= 1 && table[0].0 != "overload" && n == BareAttributeUse("typing", table[0].0)
    ensures var ps := RegisterModule(Fresh, table, "typing").usagePatterns;
      && |ps| >= 1 && ps[0] == UsagePattern(PowerShape, Some("typing"), ByName, table[0].0)
      && FirstMatch(ps, n) == Some(0)
  {
    var ps := RegisterModule(Fresh, table, "typing").usagePatterns;
    RegisterModulePrefix(Fresh, table, 1, "typing");
    FirstTypingPattern(table);
    var short := RegisterModule(Fresh, table[..1], "typing").usagePatterns;
    assert Matches(short[0], n);
    assert FirstMatch(short, n) == Some(0);
    assert ps == short + ps[1..];
    FirstMatchStable(short, ps[1..], n);
  }

  /** After `import typing`, the use `typing.AbstractSet` is matched by its usage pattern. */
  lemma {:induction false} TypingAttributeUseMatched(n: Node)
    requires n == BareAttributeUse("typing", "AbstractSet")
    ensures var st := RegisterModule(Fresh, Types, "typing");
      MatchSpec(Types, st, n) == (st, Usage(ByName, "AbstractSet"))
  {
    assert Types[0].0 == "AbstractSet";
    assert |"AbstractSet"| != |"overload"|;
    FirstNameUseMatched(Types, n);
  }

  /**
   * The whole path: after `import typing`, the use `typing.AbstractSet` is matched, the
   * table renames it to `collections.abc.Set`, and the rename as written raises IndexError.
   */
  lemma {:induction false} TypingAttributeUseRaises(t: Node, p: Path)
    requires ValidPath(t, p) && At(t, p) == BareAttributeUse("typing", "AbstractSet")
    ensures var st := RegisterModule(Fresh, Types, "typing");
      && MatchSpec(Types, st, At(t, p)) == (st, Usage(ByName, "AbstractSet"))
      && Lookup("AbstractSet") == Some(RenameTo("collections.abc.Set"))
      && RenameEditAsWritten(t, p, "collections.abc.Set") == Edit(Raised(IndexError), t)
  {
    TypingAttributeUseMatched(At(t, p));
    AbstractSetEntry();
    BareAttributeRenameRaises(t, p, "typing", "AbstractSet", "collections.abc.Set");
  }

  /** The same path with the bounded loop: the use becomes `collections.abc.Set`. */
  lemma {:induction false} TypingAttributeUseRenamed(t: Node, p: Path)
    requires ValidPath(t, p) && p != [] && At(t, p) == BareAttributeUse("typing", "AbstractSet")
    ensures var st := RegisterModule(Fresh, Types, "typing");
      && MatchSpec(Types, st, At(t, p)) == (st, Usage(ByName, "AbstractSet"))
      && RewriteUsageEdit(Types, st.aliases, t, p, ByName, "AbstractSet")
         == Edit(Completed, ReplaceAt(t, p, [DottedName("collections.abc.Set", "")]))
  {
    TypingAttributeUseMatched(At(t, p));
    AbstractSetEntry();
    var st := RegisterModule(Fresh, Types, "typing");
    RewriteOfBareAttribute(Types, st.aliases, t, p, "typing", "AbstractSet", "collections.abc.Set");
  }

  /** Wherever the rename as written does not crash, the bounded rename does the same thing. */
  lemma {:induction false} RenameAgrees(t: Node, p: Path, target: string)
    requires ValidPath(t, p) && RenameEditAsWritten(t, p, target).outcome != Raised(IndexError)
    ensures RenameEdit(t, p, target) == RenameEditAsWritten(t, p, target)
  {
    if '.' in target {
      TrailerRunAgrees(Children(At(t, p)), 1);
    }
  }

  /** The bounded rename replaces a bare attribute use by the dotted target. */
  lemma {:induction false} RenameOfBareAttribute(t: Node, p: Path, head: string, name: string, target: string)
    requires ValidPath(t, p) && p != [] && At(t, p) == BareAttributeUse(head, name) && '.' in target
    ensures RenameEdit(t, p, target) == Edit(Completed, ReplaceAt(t, p, [DottedName(target, "")]))
  {
    var cs := Children(At(t, p));
    assert IsDotTrailer(cs[1]);
    assert AttributeRunEnd(cs, 2) == Some(2);
  }

  /** The bounded rename raises IndexError only on a trailer without children, which the parser never builds. */
  lemma {:induction false} RenameNoIndexError(t: Node, p: Path, target: string)
    requires ValidPath(t, p)
    requires forall k :: 1 <= k < |Children(At(t, p))| ==> !IsEmptyTrailer(Children(At(t, p))[k])
    ensures RenameEdit(t, p, target).outcome != Raised(IndexError)
  {
  }
}
