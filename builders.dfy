/**
 * The node builders of strip_type_hints.py: `with_seperator`, `DottedName` and
 * `FromImport` (lines 61-95), with `str.split('.')` as a function whose inverse is
 * joining with the separator.
 */
module Builders {
  import opened Wrappers
  import opened SyntaxTree

  /** The items with the separator between each neighbouring pair. */
  function Interleave<T>(items: seq<T>, sep: T): (r: seq<T>)
    ensures items == [] ==> r == []
    ensures items != [] ==> |r| == 2 * |items| - 1
    ensures forall i :: 0 <= i < |r| && i % 2 == 0 ==> r[i] == items[i / 2]
    ensures forall i :: 0 <= i < |r| && i % 2 == 1 ==> r[i] == sep
  {
    if |items| <= 1 then items
    else
      var rest := Interleave(items[1..], sep);
      InterleaveCons(items, sep, rest);
      [items[0], sep] + rest
  }

  /** The step of `Interleave`: the first item and a separator in front of the rest, interleaved. */
  lemma {:induction false} InterleaveCons<T>(items: seq<T>, sep: T, rest: seq<T>)
    requires |items| >= 2 && |rest| == 2 * (|items| - 1) - 1
    requires forall i :: 0 <= i < |rest| && i % 2 == 0 ==> rest[i] == items[1..][i / 2]
    requires forall i :: 0 <= i < |rest| && i % 2 == 1 ==> rest[i] == sep
    ensures var r := [items[0], sep] + rest;
      && |r| == 2 * |items| - 1
      && (forall i :: 0 <= i < |r| && i % 2 == 0 ==> r[i] == items[i / 2])
      && (forall i :: 0 <= i < |r| && i % 2 == 1 ==> r[i] == sep)
  {
    var r := [items[0], sep] + rest;
    forall i | 2 <= i < |r|
      ensures r[i] == rest[i - 2] && (i - 2) % 2 == i % 2 && (i - 2) / 2 == i / 2 - 1
    {
    }
    forall i | 2 <= i < |r| && i % 2 == 0
      ensures r[i] == items[i / 2]
    {
      assert rest[i - 2] == items[1..][i / 2 - 1];
    }
  }

  /**
   * `with_seperator(items, seperator)`: the source calls the separator factory once per
   * gap; on values every call gives the same leaf.
   */
  method WithSeparator<T>(items: seq<T>, sep: T) returns (result: seq<T>)
    ensures result == Interleave(items, sep)
  {
    if |items| == 0 {
      return [];
    }
    result := [];
    for k := 0 to |items| - 1
      invariant |result| == 2 * k
      invariant forall i :: 0 <= i < |result| && i % 2 == 0 ==> result[i] == items[i / 2]
      invariant forall i :: 0 <= i < |result| && i % 2 == 1 ==> result[i] == sep
    {
      result := result + [items[k], sep];
    }
    result := result + [items[|items| - 1]];
    var expected := Interleave(items, sep);
    assert |result| == |expected|;
    forall i | 0 <= i < |result|
      ensures result[i] == expected[i]
    {
    }
  }

  /** Appending an item to a non-empty list appends one separator and the item. */
  lemma {:induction false} InterleaveSnoc<T>(items: seq<T>, x: T, sep: T)
    requires items != []
    ensures Interleave(items + [x], sep) == Interleave(items, sep) + [sep, x]
  {
    var a := Interleave(items + [x], sep);
    var b := Interleave(items, sep) + [sep, x];
    assert |a| == |b|;
    forall i | 0 <= i < |a|
      ensures a[i] == b[i]
    {
      if i % 2 == 0 && i < |a| - 1 {
        assert (items + [x])[i / 2] == items[i / 2];
      }
    }
  }

  // ---------------------------------------------------------------------------
  // str.split and its inverse

  function Join(parts: seq<string>, c: char): string
    requires parts != []
  {
    if |parts| == 1 then parts[0] else parts[0] + [c] + Join(parts[1..], c)
  }

  function IndexOf(s: string, c: char): (i: nat)
    requires c in s
    ensures i < |s| && s[i] == c && c !in s[..i]
  {
    if s[0] == c then 0 else 1 + IndexOf(s[1..], c)
  }

  /** `s.split(c)`: the pieces between the separators, joined back giving `s`. */
  function Split(s: string, c: char): (parts: seq<string>)
    ensures parts != []
    ensures forall i :: 0 <= i < |parts| ==> c !in parts[i]
    ensures Join(parts, c) == s
    ensures |parts| == 1 <==> c !in s
    decreases |s|
  {
    if c !in s then [s]
    else
      var i := IndexOf(s, c);
      assert s == s[..i] + [c] + s[i + 1..];
      [s[..i]] + Split(s[i + 1..], c)
  }

  lemma {:induction false} IndexOfUnique(s: string, c: char, j: nat)
    requires j < |s| && s[j] == c && c !in s[..j]
    ensures IndexOf(s, c) == j
    decreases j
  {
    if j > 0 {
      assert s[..j][0] == s[0];
      assert s[1..][j - 1] == c && s[1..][..j - 1] == s[..j][1..];
      IndexOfUnique(s[1..], c, j - 1);
    }
  }

  /** The first separator of a join is the one after the first piece. */
  lemma {:induction false} JoinHead(parts: seq<string>, c: char)
    requires |parts| > 1 && c !in parts[0]
    ensures var s := Join(parts, c);
      && c in s && IndexOf(s, c) == |parts[0]|
      && s[..|parts[0]|] == parts[0] && s[|parts[0]| + 1..] == Join(parts[1..], c)
  {
    var s := Join(parts, c);
    var rest := Join(parts[1..], c);
    assert s == parts[0] + [c] + rest;
    assert s[|parts[0]|] == c;
    assert s[..|parts[0]|] == parts[0];
    IndexOfUnique(s, c, |parts[0]|);
    assert s[|parts[0]| + 1..] == rest;
  }

  /** Splitting a join of separator-free pieces gives the pieces back. */
  lemma {:induction false} SplitJoin(parts: seq<string>, c: char)
    requires parts != []
    requires forall i :: 0 <= i < |parts| ==> c !in parts[i]
    ensures Split(Join(parts, c), c) == parts
    decreases |parts|
  {
    if |parts| > 1 {
      JoinHead(parts, c);
      SplitJoin(parts[1..], c);
      assert parts == [parts[0]] + parts[1..];
    }
  }

  // ---------------------------------------------------------------------------
  // DottedName

  function NameLeaves(parts: seq<string>): (r: seq<Node>)
    ensures |r| == |parts| && forall i :: 0 <= i < |parts| ==> r[i] == Name(parts[i], "")
  {
    seq(|parts|, i requires 0 <= i < |parts| => Name(parts[i], ""))
  }

  /** The texts of the children that are not `.` leaves, in order. */
  function NonDotTexts(cs: seq<Node>): seq<string> {
    if cs == [] then []
    else (if IsToken(cs[0], DOT) then [] else [Text(cs[0])]) + NonDotTexts(cs[1..])
  }

  /**
   * `DottedName(name, prefix)`: a single NAME leaf carrying the prefix, or a
   * `dotted_name` branch of the dot-separated parts whose first leaf carries it.
   */
  function DottedName(name: string, prefix: string): (r: Node)
  {
    if '.' in name then
      SetPrefix(Branch(dotted_name, Interleave(NameLeaves(Split(name, '.')), Dot())), prefix)
    else
      Name(name, prefix)
  }

  lemma {:induction false} InterleavedNamesTexts(parts: seq<string>)
    requires parts != []
    ensures NonDotTexts(Interleave(NameLeaves(parts), Dot())) == parts
    ensures TextOf(Interleave(NameLeaves(parts), Dot())) == Join(parts, '.')
    decreases |parts|
  {
    var cs := Interleave(NameLeaves(parts), Dot());
    if |parts| > 1 {
      assert NameLeaves(parts)[1..] == NameLeaves(parts[1..]);
      var rest := Interleave(NameLeaves(parts[1..]), Dot());
      assert cs == [Name(parts[0], ""), Dot()] + rest;
      assert cs[1..] == [Dot()] + rest && cs[2..] == rest;
      InterleavedNamesTexts(parts[1..]);
      assert TextOf(cs) == parts[0] + TextOf(cs[1..]);
      assert TextOf(cs[1..]) == "." + TextOf(rest);
    } else {
      assert cs == [Name(parts[0], "")];
      assert cs[1..] == [];
    }
  }

  lemma {:induction false} SetPrefixDotted(cs: seq<Node>, p: string)
    requires cs != [] && cs[0].Leaf?
    ensures SetPrefix(Branch(dotted_name, cs), p) == Branch(dotted_name, [cs[0].(prefix := p)] + cs[1..])
  {
  }

  /**
   * What `DottedName` builds: an undotted name gives a NAME leaf; a dotted one gives a
   * `dotted_name` whose non-`.` children are exactly `name.split('.')` in order with a
   * `.` leaf between each pair, the first of them carrying the prefix.
   */
  lemma {:induction false} DottedNameShape(name: string, prefix: string)
    ensures '.' !in name ==> DottedName(name, prefix) == Leaf(NAME, name, prefix)
    ensures '.' in name ==>
      var r := DottedName(name, prefix);
      var parts := Split(name, '.');
      && r.Branch? && r.symbol == dotted_name
      && NonDotTexts(r.children) == parts
      && |r.children| == 2 * |parts| - 1
      && (forall i :: 0 <= i < |r.children| && i % 2 == 1 ==> r.children[i] == Dot())
      && (forall i :: 0 <= i < |r.children| && i % 2 == 0 ==>
            r.children[i] == Name(parts[i / 2], if i == 0 then prefix else ""))
  {
    if '.' in name {
      DottedNameTexts(name, prefix);
      DottedNameLayout(name, prefix);
    }
  }

  lemma {:induction false} DottedNameTexts(name: string, prefix: string)
    requires '.' in name
    ensures DottedName(name, prefix).Branch? && NonDotTexts(DottedName(name, prefix).children) == Split(name, '.')
  {
    var parts := Split(name, '.');
    var cs := Interleave(NameLeaves(parts), Dot());
    var cs' := DottedChildren(name, prefix);
    InterleavedNamesTexts(parts);
    assert cs'[1..] == cs[1..];
  }

  lemma {:induction false} DottedNameLayout(name: string, prefix: string)
    requires '.' in name
    ensures var r := DottedName(name, prefix);
      var parts := Split(name, '.');
      && r.Branch? && r.symbol == dotted_name
      && |r.children| == 2 * |parts| - 1
      && (forall i :: 0 <= i < |r.children| && i % 2 == 1 ==> r.children[i] == Dot())
      && (forall i :: 0 <= i < |r.children| && i % 2 == 0 ==>
            r.children[i] == Name(parts[i / 2], if i == 0 then prefix else ""))
  {
    var cs' := DottedChildren(name, prefix);
    PrefixedLayout(Split(name, '.'), prefix);
  }

  /** The interleaved name leaves with the prefix moved onto the first one. */
  lemma {:induction false} PrefixedLayout(parts: seq<string>, prefix: string)
    requires parts != []
    ensures var cs := Interleave(NameLeaves(parts), Dot());
      var cs' := [cs[0].(prefix := prefix)] + cs[1..];
      && |cs'| == 2 * |parts| - 1
      && (forall i :: 0 <= i < |cs'| && i % 2 == 1 ==> cs'[i] == Dot())
      && (forall i :: 0 <= i < |cs'| && i % 2 == 0 ==> cs'[i] == Name(parts[i / 2], if i == 0 then prefix else ""))
  {
    var leaves := NameLeaves(parts);
    var cs := Interleave(leaves, Dot());
    var cs' := [cs[0].(prefix := prefix)] + cs[1..];
    forall i | 0 <= i < |cs'|
      ensures i % 2 == 1 ==> cs'[i] == Dot()
      ensures i % 2 == 0 ==> cs'[i] == Name(parts[i / 2], if i == 0 then prefix else "")
    {
      if i == 0 {
        assert cs[0] == leaves[0] == Name(parts[0], "");
      } else {
        assert cs'[i] == cs[i];
        if i % 2 == 0 {
          assert cs[i] == leaves[i / 2];
        }
      }
    }
  }

  /** The children of a dotted `DottedName`: the interleaved name leaves, the first one carrying the prefix. */
  lemma {:induction false} DottedChildren(name: string, prefix: string) returns (cs': seq<Node>)
    requires '.' in name
    ensures var cs := Interleave(NameLeaves(Split(name, '.')), Dot());
      && cs != [] && cs' == [cs[0].(prefix := prefix)] + cs[1..]
      && DottedName(name, prefix) == Branch(dotted_name, cs')
  {
    var parts := Split(name, '.');
    var cs := Interleave(NameLeaves(parts), Dot());
    SetPrefixDotted(cs, prefix);
    cs' := [cs[0].(prefix := prefix)] + cs[1..];
  }

  /** Reading the dotted name back as text gives the name, and the node carries the prefix. */
  lemma {:induction false} DottedNameRoundTrip(name: string, prefix: string)
    ensures Text(DottedName(name, prefix)) == name
    ensures Prefix(DottedName(name, prefix)) == prefix
  {
    if '.' in name {
      var parts := Split(name, '.');
      var cs := Interleave(NameLeaves(parts), Dot());
      InterleavedNamesTexts(parts);
      SetPrefixDotted(cs, prefix);
      var cs' := [cs[0].(prefix := prefix)] + cs[1..];
      assert cs'[1..] == cs[1..];
      assert TextOf(cs') == TextOf(cs);
    }
  }

  // ---------------------------------------------------------------------------
  // FromImport

  /** One imported name: a bare NAME, or `name as alias` when the alias differs. */
  function ImportLeaf(name: string, alias: Option<string>): Node {
    if alias.None? || alias.value == name then Name(name, " ")
    else Branch(import_as_name, [Name(name, " "), Name("as", " "), Name(alias.value, " ")])
  }

  function ImportLeaves(names: seq<(string, Option<string>)>): (r: seq<Node>)
    ensures |r| == |names|
  {
    seq(|names|, k requires 0 <= k < |names| => ImportLeaf(names[k].0, names[k].1))
  }

  /** The node `from <package> import a, b as c` that `FromImport` builds. */
  function FromImportNode(package: string, names: seq<(string, Option<string>)>): Node {
    Branch(import_from, [
      Leaf(NAME, "from", ""),
      SetPrefix(DottedName(package, ""), " "),
      Leaf(NAME, "import", " "),
      Branch(import_as_names, Interleave(ImportLeaves(names), Comma()))])
  }

  /** `FromImport(package_name, names)`, building the imported names one by one. */
  method FromImport(package: string, names: seq<(string, Option<string>)>) returns (r: Node)
    ensures r == FromImportNode(package, names)
  {
    var dotted := DottedName(package, "");
    dotted := SetPrefix(dotted, " ");
    var leafs: seq<Node> := [];
    for k := 0 to |names|
      invariant leafs == ImportLeaves(names[..k])
    {
      var (name, alias) := names[k];
      if alias.None? || alias.value == name {
        leafs := leafs + [Name(name, " ")];
      } else {
        leafs := leafs + [Branch(import_as_name, [Name(name, " "), Name("as", " "), Name(alias.value, " ")])];
      }
    }
    assert names[..|names|] == names;
    var separated := WithSeparator(leafs, Comma());
    r := Branch(import_from, [Leaf(NAME, "from", ""), dotted, Leaf(NAME, "import", " "), Branch(import_as_names, separated)]);
  }
}
