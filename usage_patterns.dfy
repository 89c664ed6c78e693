/**
 * The usage patterns that `FixRemoveCast.make_pattern` registers
 * (strip_type_hints.py:227-257) and the per-file state it updates. A compiled pattern
 * is represented by a descriptor: its shape, the module name it is reached through
 * (if any), whether its capture is called `name` or `alias`, and the name it looks for.
 */
module UsagePatterns {
  import opened Wrappers
  import opened SyntaxTree

  datatype Shape =
    | PowerShape        // power< X any* >, or power< 'M' trailer< '.' X > any* >
    | DecoratorShape    // decorated< decorator< '@' X any* > any* >
    | DecoratorsShape   // decorated< decorators< any* decorator< '@' X any* > any* > any* >

  /** The capture label: `name` for a plain import, `alias` for an `as` import. */
  datatype Capture = ByName | ByAlias

  datatype UsagePattern = UsagePattern(shape: Shape, modname: Option<string>, capture: Capture, name: string)

  /** The key `make_pattern` uses for deduplication: (name, modname, alias). */
  type PatternKey = (string, Option<string>, Option<string>)

  /** The per-file fields of the fixer. */
  datatype CastState = CastState(
    usagePatterns: seq<UsagePattern>,
    aliases: map<string, string>,
    patterns: set<PatternKey>,
    imports: set<string>)

  /** What `start_tree` leaves. */
  const Fresh: CastState := CastState([], map[], {}, {})

  // ---------------------------------------------------------------------------
  // Matching a descriptor against a node

  predicate IsLetter(c: char) {
    'a' <= c <= 'z' || 'A' <= c <= 'Z'
  }

  /**
   * A quoted literal in a pattern: a literal that starts with a letter matches a NAME
   * leaf with that text, any other identifier matches a leaf of any kind with that text.
   */
  predicate NameLiteral(n: Node, v: string) {
    n.Leaf? && n.value == v && (v != [] && IsLetter(v[0]) ==> n.token == NAME)
  }

  /** The decorated name: `X`, or `dotted_name< 'M' '.' X >` when reached through a module. */
  predicate DecoratorTarget(n: Node, modname: Option<string>, name: string) {
    match modname
    case None => NameLiteral(n, name)
    case Some(m) =>
      IsBranch(n, dotted_name) && |n.children| == 3
      && NameLiteral(n.children[0], m) && IsLiteral(n.children[1], DOT, ".") && NameLiteral(n.children[2], name)
  }

  predicate DecoratorFor(c: Node, modname: Option<string>, name: string) {
    IsBranch(c, decorator) && |c.children| >= 2
    && IsLiteral(c.children[0], AT, "@") && DecoratorTarget(c.children[1], modname, name)
  }

  /** `X trailer...` or `M.X trailer...` as the head of a power node. */
  predicate PowerFor(n: Node, modname: Option<string>, name: string) {
    IsBranch(n, power) &&
    match modname
    case None => |n.children| >= 1 && NameLiteral(n.children[0], name)
    case Some(m) =>
      |n.children| >= 2 && NameLiteral(n.children[0], m)
      && IsBranch(n.children[1], trailer) && |n.children[1].children| == 2
      && IsLiteral(n.children[1].children[0], DOT, ".") && NameLiteral(n.children[1].children[1], name)
  }

  predicate Matches(d: UsagePattern, n: Node) {
    match d.shape
    case PowerShape => PowerFor(n, d.modname, d.name)
    case DecoratorShape =>
      IsBranch(n, decorated) && |n.children| >= 1 && DecoratorFor(n.children[0], d.modname, d.name)
    case DecoratorsShape =>
      IsBranch(n, decorated) && |n.children| >= 1 && IsBranch(n.children[0], decorators)
      && exists k :: 0 <= k < |n.children[0].children| && DecoratorFor(n.children[0].children[k], d.modname, d.name)
  }

  /** The first descriptor from index `i` on that matches `n`. */
  function FirstMatchFrom(ps: seq<UsagePattern>, n: Node, i: nat): (r: Option<nat>)
    ensures r.Some? ==> i <= r.value < |ps| && Matches(ps[r.value], n)
    ensures r.Some? ==> forall j :: i <= j < r.value ==> !Matches(ps[j], n)
    ensures r.None? ==> forall j :: i <= j < |ps| ==> !Matches(ps[j], n)
    decreases |ps| - i
  {
    if i >= |ps| then None
    else if Matches(ps[i], n) then Some(i)
    else FirstMatchFrom(ps, n, i + 1)
  }

  /** `for pattern in self.usage_patterns: if pattern.match(node, results): return results`. */
  function FirstMatch(ps: seq<UsagePattern>, n: Node): Option<nat> {
    FirstMatchFrom(ps, n, 0)
  }

  /** The same loop, written as one. */
  method FindUsage(ps: seq<UsagePattern>, n: Node) returns (r: Option<nat>)
    ensures r == FirstMatch(ps, n)
  {
    var i := 0;
    while i < |ps|
      invariant i <= |ps|
      invariant FirstMatchFrom(ps, n, i) == FirstMatch(ps, n)
      decreases |ps| - i
    {
      if Matches(ps[i], n) {
        return Some(i);
      }
      i := i + 1;
    }
    return None;
  }

  /** The first match is the same one however many descriptors are appended later. */
  lemma {:induction false} FirstMatchStable(ps: seq<UsagePattern>, qs: seq<UsagePattern>, n: Node)
    requires FirstMatch(ps, n).Some?
    ensures FirstMatch(ps + qs, n) == FirstMatch(ps, n)
  {
    var k := FirstMatch(ps, n).value;
    FirstMatchAt(ps + qs, n, 0, k);
  }

  lemma {:induction false} FirstMatchAt(ps: seq<UsagePattern>, n: Node, i: nat, k: nat)
    requires i <= k < |ps| && Matches(ps[k], n)
    requires forall j :: i <= j < k ==> !Matches(ps[j], n)
    ensures FirstMatchFrom(ps, n, i) == Some(k)
    decreases k - i
  {
    if i < k {
      FirstMatchAt(ps, n, i + 1, k);
    }
  }

  // ---------------------------------------------------------------------------
  // make_pattern

  /** The descriptors built for `name` (after any alias substitution). */
  function NewPatterns(name: string, modname: Option<string>, capture: Capture): (r: seq<UsagePattern>)
    ensures |r| == (if name == "overload" then 2 else 1)
    ensures forall i :: 0 <= i < |r| ==> r[i].modname == modname && r[i].capture == capture && r[i].name == name
    ensures name == "overload" ==> r[0].shape == DecoratorsShape && r[1].shape == DecoratorShape
    ensures name != "overload" ==> r[0].shape == PowerShape
  {
    var shapes := if name == "overload" then [DecoratorsShape, DecoratorShape] else [PowerShape];
    seq(|shapes|, i requires 0 <= i < |shapes| => UsagePattern(shapes[i], modname, capture, name))
  }

  /** The name the registered patterns look for: the alias when there is one. */
  function BoundName(name: string, alias: Option<string>): string {
    if alias.Some? then alias.value else name
  }

  /** `make_pattern(name, modname, alias)`. */
  function Register(st: CastState, name: string, modname: Option<string>, alias: Option<string>): CastState {
    if (name, modname, alias) in st.patterns then st
    else
      var capture := if alias.None? then ByName else ByAlias;
      var aliases := if alias.Some? then st.aliases[alias.value := name] else st.aliases;
      var bound := BoundName(name, alias);
      CastState(
        st.usagePatterns + NewPatterns(bound, modname, capture),
        aliases,
        st.patterns + {(bound, modname, alias)},
        st.imports)
  }

  /** Registering the same name without an alias a second time changes nothing. */
  lemma {:induction false} RegisterTwiceWithoutAlias(st: CastState, name: string, modname: Option<string>)
    ensures var once := Register(st, name, modname, None);
      Register(once, name, modname, None) == once
  {
  }

  /**
   * A first registration with an alias records which `typing` name the alias stands
   * for, and its new patterns look for the alias under the `alias` capture.
   */
  lemma {:induction false} RegisterRecordsAlias(st: CastState, name: string, modname: Option<string>, a: string)
    requires (name, modname, Some(a)) !in st.patterns
    ensures var r := Register(st, name, modname, Some(a));
      && r.aliases == st.aliases[a := name]
      && |st.usagePatterns| < |r.usagePatterns|
      && r.usagePatterns[..|st.usagePatterns|] == st.usagePatterns
      && (forall i :: |st.usagePatterns| <= i < |r.usagePatterns| ==>
            r.usagePatterns[i].name == a && r.usagePatterns[i].capture == ByAlias && r.usagePatterns[i].modname == modname)
      && r.imports == st.imports
  {
  }

  /**
   * The key recorded after an aliased registration is (alias, modname, alias), not the
   * (name, modname, alias) that is looked up, so the same aliased import registered
   * again appends its patterns again.
   */
  lemma {:induction false} RegisterTwiceWithAliasAppendsAgain(st: CastState, name: string, modname: Option<string>, a: string)
    requires a != name && (name, modname, Some(a)) !in st.patterns
    ensures var once := Register(st, name, modname, Some(a));
      var twice := Register(once, name, modname, Some(a));
      && |twice.usagePatterns| == |once.usagePatterns| + |once.usagePatterns| - |st.usagePatterns|
      && (a, modname, Some(a)) in once.patterns
  {
  }

  /** Every `alias` descriptor names a key of `aliases`, so its lookup at line 286 succeeds. */
  predicate AliasesCovered(st: CastState) {
    forall i :: 0 <= i < |st.usagePatterns| && st.usagePatterns[i].capture == ByAlias ==>
      st.usagePatterns[i].name in st.aliases
  }

  lemma {:induction false} RegisterKeepsAliasesCovered(st: CastState, name: string, modname: Option<string>, alias: Option<string>)
    requires AliasesCovered(st)
    ensures AliasesCovered(Register(st, name, modname, alias))
  {
    var r := Register(st, name, modname, alias);
    if (name, modname, alias) !in st.patterns {
      var n := |st.usagePatterns|;
      forall i | 0 <= i < |r.usagePatterns| && r.usagePatterns[i].capture == ByAlias
        ensures r.usagePatterns[i].name in r.aliases
      {
        if i < n {
          assert r.usagePatterns[i] == st.usagePatterns[i];
        }
      }
    }
  }

  function CaptureFor(alias: Option<string>): Capture {
    if alias.None? then ByName else ByAlias
  }

  /** Every recorded key has its descriptors in the list. */
  predicate KeysRegistered(st: CastState) {
    forall key, i :: key in st.patterns && 0 <= i < |NewPatterns(key.0, key.1, CaptureFor(key.2))| ==>
      NewPatterns(key.0, key.1, CaptureFor(key.2))[i] in st.usagePatterns
  }

  /** The invariant the fixer's fields keep between calls. */
  predicate Consistent(st: CastState) {
    AliasesCovered(st) && KeysRegistered(st)
  }

  lemma {:induction false} FreshConsistent()
    ensures Consistent(Fresh)
  {
  }

  /** The invariant does not depend on the modules imported so far. */
  lemma {:induction false} ConsistentWithImports(st: CastState, imports: set<string>)
    requires Consistent(st)
    ensures Consistent(st.(imports := imports))
  {
  }

  lemma {:induction false} RegisterKeepsConsistent(st: CastState, name: string, modname: Option<string>, alias: Option<string>)
    requires Consistent(st)
    ensures Consistent(Register(st, name, modname, alias))
  {
    RegisterKeepsAliasesCovered(st, name, modname, alias);
    var r := Register(st, name, modname, alias);
    if (name, modname, alias) !in st.patterns {
      var added := NewPatterns(BoundName(name, alias), modname, CaptureFor(alias));
      assert r.usagePatterns == st.usagePatterns + added;
      forall key, i | key in r.patterns && 0 <= i < |NewPatterns(key.0, key.1, CaptureFor(key.2))|
        ensures NewPatterns(key.0, key.1, CaptureFor(key.2))[i] in r.usagePatterns
      {
        if key in st.patterns {
          assert NewPatterns(key.0, key.1, CaptureFor(key.2))[i] in st.usagePatterns;
        } else {
          assert key == (BoundName(name, alias), modname, alias);
          assert added[i] in r.usagePatterns by { assert r.usagePatterns[|st.usagePatterns| + i] == added[i]; }
        }
      }
    }
  }

  /** `@overload` as the decorator of a decorated definition. */
  predicate DecoratedByOverload(n: Node) {
    IsBranch(n, decorated) && |n.children| >= 1
    && (DecoratorFor(n.children[0], None, "overload")
        || (IsBranch(n.children[0], decorators)
            && exists k :: 0 <= k < |n.children[0].children| && DecoratorFor(n.children[0].children[k], None, "overload")))
  }

  /**
   * After `from typing import overload`, a definition decorated with `@overload`, alone
   * or among other decorators, is matched by one of the registered patterns.
   */
  lemma {:induction false} RegisteredOverloadIsMatched(st: CastState, n: Node)
    requires Consistent(st)
    requires DecoratedByOverload(n)
    ensures FirstMatch(Register(st, "overload", None, None).usagePatterns, n).Some?
  {
    var r := Register(st, "overload", None, None);
    var ps := NewPatterns("overload", None, ByName);
    var i := if DecoratorFor(n.children[0], None, "overload") then 1 else 0;
    assert Matches(ps[i], n);
    if ("overload", None, None) !in st.patterns {
      assert r.usagePatterns[|st.usagePatterns| + i] == ps[i];
    } else {
      var key: PatternKey := ("overload", None, None);
      assert key in st.patterns;
      assert NewPatterns(key.0, key.1, CaptureFor(key.2))[i] == ps[i];
    }
    assert ps[i] in r.usagePatterns;
  }

  /** The patterns registered for `overload` look only at decorators, never at a power node. */
  lemma {:induction false} OverloadPatternsSkipPower(modname: Option<string>, capture: Capture, n: Node)
    requires IsBranch(n, power)
    ensures forall i :: 0 <= i < |NewPatterns("overload", modname, capture)| ==>
      !Matches(NewPatterns("overload", modname, capture)[i], n)
  {
  }

  /**
   * After `from typing import <name>` registers a name, a use `name ...` (a power node
   * headed by that name) is matched by one of the registered patterns.
   */
  lemma {:induction false} RegisteredNameIsMatched(st: CastState, name: string, n: Node)
    requires Consistent(st)
    requires name != "overload"
    requires IsBranch(n, power) && |n.children| >= 1 && IsLiteral(n.children[0], NAME, name)
    ensures FirstMatch(Register(st, name, None, None).usagePatterns, n).Some?
  {
    var r := Register(st, name, None, None);
    var d := UsagePattern(PowerShape, None, ByName, name);
    assert Matches(d, n);
    if (name, None, None) !in st.patterns {
      assert r.usagePatterns[|st.usagePatterns|] == d;
    } else {
      var key: PatternKey := (name, None, None);
      assert key in st.patterns;
      assert NewPatterns(key.0, key.1, CaptureFor(key.2))[0] == d;
    }
    assert d in r.usagePatterns;
  }
}
