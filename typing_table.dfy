/**
 * `FixRemoveCast.TYPES` (strip_type_hints.py:110-152): what each name of the `typing`
 * module becomes. A name either calls one of the edit helpers on its usage site or is
 * renamed to a runtime equivalent, written as a dotted name when it lives in another
 * module.
 */
module TypingTable {
  import opened Wrappers

  datatype Replacement =
    | ViaRemoveExpr          // remove_expr
    | ViaReplaceCast         // replace_cast
    | ViaRemoveLine          // remove_line
    | RenameTo(target: string)

  /** The table, in the dictionary's (insertion) order. */
  const Types: seq<(string, Replacement)> := [
    ("AbstractSet", RenameTo("collections.abc.Set")),
    ("Any", RenameTo("object")),
    ("AsyncIterable", RenameTo("collections.abc.AsyncIterable")),
    ("AsyncIterator", RenameTo("collections.abc.AsyncIterator")),
    ("Awaitable", RenameTo("collections.abc.Awaitable")),
    ("ByteString", RenameTo("str")),
    ("Callable", ViaRemoveExpr),
    ("cast", ViaReplaceCast),
    ("ClassVar", ViaRemoveExpr),
    ("Collection", RenameTo("collections.abc.Collection")),
    ("Container", RenameTo("collections.abc.Container")),
    ("Coroutine", RenameTo("collections.abc.Coroutine")),
    ("DefaultDict", RenameTo("collections.defaultdict")),
    ("Dict", RenameTo("dict")),
    ("FrozenSet", RenameTo("frozenset")),
    ("Generator", RenameTo("types.GeneratorType")),
    ("Generic", ViaRemoveExpr),
    ("Hashable", RenameTo("collections.abc.Hashable")),
    ("ItemsView", RenameTo("collections.abc.ItemsView")),
    ("Iterable", RenameTo("collections.abc.Iterable")),
    ("Iterator", RenameTo("collections.abc.Iterator")),
    ("KeysView", RenameTo("collections.abc.KeysView")),
    ("List", RenameTo("list")),
    ("Mapping", RenameTo("collections.abc.Mapping")),
    ("MappingView", RenameTo("collections.abc.MappingView")),
    ("MutableMapping", RenameTo("collections.abc.MutableMapping")),
    ("MutableSequence", RenameTo("collections.abc.MutableSequence")),
    ("MutableSet", RenameTo("collections.abc.MutableSet")),
    ("NamedTuple", RenameTo("collections.namedtuple")),
    ("NewType", ViaRemoveLine),
    ("Optional", ViaRemoveExpr),
    ("overload", ViaRemoveExpr),
    ("Reversible", RenameTo("collections.abc.Reversible")),
    ("Sequence", RenameTo("collections.abc.Sequence")),
    ("Set", RenameTo("set")),
    ("Sized", RenameTo("collections.abc.Sized")),
    ("Tuple", RenameTo("tuple")),
    ("Type", RenameTo("type")),
    ("TypeVar", ViaRemoveLine),
    ("Union", ViaRemoveExpr),
    ("ValuesView", RenameTo("collections.abc.ValuesView"))
  ]

  function LookupIn(entries: seq<(string, Replacement)>, name: string): (r: Option<Replacement>)
    ensures r.None? <==> forall i :: 0 <= i < |entries| ==> entries[i].0 != name
    ensures r.Some? ==> exists i :: 0 <= i < |entries| && entries[i] == (name, r.value)
  {
    if entries == [] then None
    else if entries[0].0 == name then Some(entries[0].1)
    else
      var r := LookupIn(entries[1..], name);
      assert forall i :: 1 <= i < |entries| ==> entries[i] == entries[1..][i - 1];
      r
  }

  /** `TYPES.get(name)`. */
  function Lookup(name: string): Option<Replacement> {
    LookupIn(Types, name)
  }

  /** A replacement that names something in another module, such as `collections.abc.Set`. */
  predicate IsDotted(r: Replacement) {
    r.RenameTo? && '.' in r.target
  }

  function LastIndexOf(s: string, c: char): (i: nat)
    requires c in s
    ensures i < |s| && s[i] == c && c !in s[i + 1..]
  {
    if s[|s| - 1] == c then |s| - 1
    else
      assert c in s[..|s| - 1] by { var j :| 0 <= j < |s| && s[j] == c; assert s[..|s| - 1][j] == c; }
      var i := LastIndexOf(s[..|s| - 1], c);
      assert s[i + 1..] == s[..|s| - 1][i + 1..] + [s[|s| - 1]];
      i
  }

  /** `s.rsplit('.', 1)` on a dotted name: the module and the last part. */
  function RSplitDot(s: string): (r: (string, string))
    requires '.' in s
    ensures r.0 + "." + r.1 == s
    ensures '.' !in r.1
  {
    var i := LastIndexOf(s, '.');
    assert s == s[..i] + "." + s[i + 1..];
    (s[..i], s[i + 1..])
  }

  /** Splitting at the last dot is the only split of its kind. */
  lemma {:induction false} RSplitDotUnique(s: string, pkg: string, suffix: string)
    requires pkg + "." + suffix == s && '.' !in suffix
    ensures '.' in s && RSplitDot(s) == (pkg, suffix)
  {
    assert s[|pkg|] == '.';
    var i := LastIndexOf(s, '.');
    assert forall j :: i < j < |s| ==> s[j] != '.' by {
      forall j | i < j < |s| ensures s[j] != '.' {
        assert s[j] == s[i + 1..][j - i - 1];
      }
    }
    assert forall j :: |pkg| < j < |s| ==> s[j] != '.' by {
      forall j | |pkg| < j < |s| ensures s[j] != '.' {
        assert s[j] == suffix[j - |pkg| - 1];
      }
    }
    assert i == |pkg|;
    assert s[..i] == pkg && s[i + 1..] == suffix;
  }

  /** The lookup finds the first entry with the name. */
  lemma {:induction false} LookupAt(entries: seq<(string, Replacement)>, i: nat, name: string)
    requires i < |entries| && entries[i].0 == name
    requires forall j :: 0 <= j < i ==> entries[j].0 != name
    ensures LookupIn(entries, name) == Some(entries[i].1)
  {
    if i > 0 {
      LookupAt(entries[1..], i - 1, name);
    }
  }
}
