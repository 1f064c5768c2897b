/**
 The tree of POI types of src/poi.c: types with dotted names become rows under the row named by the
 text before the last dot, and a hash table leads from a name to its row's path.

 The tree store is a forest of rows; a path is the list of child indices that GTK writes as "2:0:1".
 */
module PoiTypes {
  import opened Common
  import opened Decimal

  type Path = seq<nat>

  datatype Row = Row(id: int, name: string, children: seq<Row>)

  /** poi_types_tree, and where each name's row is. */
  datatype Store = Store(forest: seq<Row>, index: map<string, Path>)

  const NO_FILTER := "__NO_FILTER__"
  const NO_NAME_LEVEL := 99
  const NAME_LENGTH := 80
  const PATH_LENGTH := 15

  // ---------------------------------------------------------------- names

  function Dots(name: string): (n: nat)
    ensures n <= |name|
  {
    if name == "" then 0 else Dots(name[..|name| - 1]) + if name[|name| - 1] == '.' then 1 else 0
  }

  /** The level kept in poi_type_list: a name without text is put out of reach. */
  function Level(name: string): nat {
    if name == "" then NO_NAME_LEVEL else Dots(name)
  }

  /** Position of the last dot, or the length of a name without one. */
  function LastDot(name: string): (d: nat)
    ensures d <= |name|
    ensures d < |name| ==> name[d] == '.' && forall i :: d < i < |name| ==> name[i] != '.'
    ensures d == |name| ==> forall i :: 0 <= i < |name| ==> name[i] != '.'
  {
    if name == "" then 0
    else if name[|name| - 1] == '.' then |name| - 1
    else
      var d := LastDot(name[..|name| - 1]);
      if d == |name| - 1 then |name| else d
  }

  /** The text before the last dot. */
  function ParentName(name: string): string {
    name[..LastDot(name)]
  }

  /** Case is ignored in ASCII letters (g_ascii_strcasecmp). */
  function LowerChar(c: char): char {
    if 'A' <= c <= 'Z' then (c as int + 32) as char else c
  }

  function Lower(s: string): (t: string)
    ensures |t| == |s| && forall i :: 0 <= i < |s| ==> t[i] == LowerChar(s[i])
  {
    if s == "" then "" else [LowerChar(s[0])] + Lower(s[1..])
  }

  const CAPITALS := "ABCDEFGHIJKLMNOPQRSTUVWXYZ"
  const SMALL := "abcdefghijklmnopqrstuvwxyz"

  /** The same character, or the two forms of one of the 26 letters. */
  predicate SameLetter(c: char, d: char) {
    c == d || exists k :: 0 <= k < 26 && ((c == CAPITALS[k] && d == SMALL[k]) || (c == SMALL[k] && d == CAPITALS[k]))
  }

  lemma LettersInOrder(k: nat)
    requires k < 26
    ensures CAPITALS[k] as int == 65 + k && SMALL[k] as int == 97 + k
  {
  }

  lemma SameLetterExactlyWhen(c: char, d: char)
    ensures LowerChar(c) == LowerChar(d) <==> SameLetter(c, d)
  {
    forall k | 0 <= k < 26 ensures CAPITALS[k] as int == 65 + k && SMALL[k] as int == 97 + k { LettersInOrder(k); }
    if c != d && LowerChar(c) == LowerChar(d) {
      var k := if c < d then c as int - 65 else d as int - 65;
      assert CAPITALS[k] as int == 65 + k && SMALL[k] as int == 97 + k;
    }
  }

  /** Names are taken for the same exactly when they differ in the case of letters at most. */
  lemma SameNameExactlyWhen(s: string, t: string)
    ensures Lower(s) == Lower(t) <==> |s| == |t| && forall i :: 0 <= i < |s| ==> SameLetter(s[i], t[i])
  {
    hide SameLetter, LowerChar, Lower;
    var a, b := Lower(s), Lower(t);
    forall i | 0 <= i < |s| && i < |t| ensures a[i] == b[i] <==> SameLetter(s[i], t[i]) {
      SameLetterExactlyWhen(s[i], t[i]);
    }
    if |s| == |t| && forall i :: 0 <= i < |s| ==> SameLetter(s[i], t[i]) {
      assert forall i :: 0 <= i < |s| ==> a[i] == b[i];
    }
  }

  // ---------------------------------------------------------------- the tree store

  predicate ValidPath(f: seq<Row>, p: Path)
    decreases |p|
  {
    p != [] && p[0] < |f| && (|p| == 1 || ValidPath(f[p[0]].children, p[1..]))
  }

  function RowAt(f: seq<Row>, p: Path): Row
    requires ValidPath(f, p)
    decreases |p|
  {
    if |p| == 1 then f[p[0]] else RowAt(f[p[0]].children, p[1..])
  }

  /** Path of the row that gtk_tree_store_append adds under a parent; [] stands for no parent. */
  function NewPath(f: seq<Row>, parent: Path): Path
    requires parent == [] || ValidPath(f, parent)
    decreases |parent|
  {
    if parent == [] then [|f|]
    else [parent[0]] + NewPath(f[parent[0]].children, parent[1..])
  }

  function Append(f: seq<Row>, parent: Path, row: Row): seq<Row>
    requires parent == [] || ValidPath(f, parent)
    decreases |parent|
  {
    if parent == [] then f + [row]
    else
      var r := f[parent[0]];
      f[parent[0] := r.(children := Append(r.children, parent[1..], row))]
  }

  /** gtk_tree_model_foreach: the first row, parents before children, whose name matches. */
  function FindFirst(f: seq<Row>, key: string): Option<Path> {
    if f == [] then None
    else if Lower(f[0].name) == key then Some([0])
    else
      match FindFirst(f[0].children, key)
      case Some(p) => Some([0] + p)
      case None =>
        match FindFirst(f[1..], key)
        case Some(p) => if p == [] then None else Some([p[0] + 1] + p[1..])
        case None => None
  }

  // ---------------------------------------------------------------- building

  /** gtk_tree_model_get_string_from_iter. */
  function PathText(p: Path): string {
    if p == [] then "" else if |p| == 1 then NatText(p[0]) else NatText(p[0]) + ":" + PathText(p[1..])
  }

  /** The path field of a type keeps 14 characters. */
  function KeptPath(p: Path): string {
    var s := PathText(p);
    if |s| < PATH_LENGTH then s else s[..PATH_LENGTH - 1]
  }

  function AddRow(names: seq<string>, st: Store, i: nat, parent: Path): Store
    requires i < |names| && (parent == [] || ValidPath(st.forest, parent))
  {
    Store(Append(st.forest, parent, Row(i, names[i], [])), st.index[names[i] := NewPath(st.forest, parent)])
  }

  const START := Store([Row(-1, NO_FILTER, [])], map[])

  lemma {:induction false} FoundIsValid(f: seq<Row>, key: string)
    ensures FindFirst(f, key).Some? ==>
      ValidPath(f, FindFirst(f, key).value) && Lower(RowAt(f, FindFirst(f, key).value).name) == key
  {
    if f != [] && Lower(f[0].name) != key {
      FoundIsValid(f[0].children, key);
      FoundIsValid(f[1..], key);
      var here, later := FindFirst(f[0].children, key), FindFirst(f[1..], key);
      if here.Some? {
        assert ([0] + here.value)[1..] == here.value;
      } else if later.Some? {
        var p := later.value;
        var q := [p[0] + 1] + p[1..];
        assert q[1..] == p[1..] && f[q[0]] == f[1..][p[0]];
      }
    }
  }

  lemma {:induction false} NotFoundIsAbsent(f: seq<Row>, key: string, p: Path)
    requires FindFirst(f, key).None? && ValidPath(f, p)
    ensures Lower(RowAt(f, p).name) != key
    decreases f, p
  {
    FoundIsValid(f[1..], key);
    if p[0] == 0 {
      if |p| > 1 { NotFoundIsAbsent(f[0].children, key, p[1..]); }
    } else {
      var q: Path := [p[0] - 1] + p[1..];
      assert q[1..] == p[1..] && f[p[0]] == f[1..][q[0]];
      NotFoundIsAbsent(f[1..], key, q);
    }
  }

  /** A type with dots goes under the first row named by the text before its last dot, if there is one. */
  function PlaceChild(names: seq<string>, st: Store, i: nat): Store
    requires i < |names|
  {
    FoundIsValid(st.forest, Lower(ParentName(names[i])));
    match FindFirst(st.forest, Lower(ParentName(names[i])))
    case None => st
    case Some(parent) => AddRow(names, st, i, parent)
  }

  /** The first loop of create_poitype_tree, over the first i types. */
  function BasePass(names: seq<string>, i: nat): Store
    requires i <= |names|
  {
    if i == 0 then START
    else
      var st := BasePass(names, i - 1);
      if Level(names[i - 1]) == 0 then AddRow(names, st, i - 1, []) else st
  }

  /** The inner loop for level j, over the first i types. */
  function LevelPass(names: seq<string>, st: Store, j: nat, i: nat): Store
    requires i <= |names|
    decreases i
  {
    if i == 0 then st
    else
      var before := LevelPass(names, st, j, i - 1);
      if Level(names[i - 1]) == j then PlaceChild(names, before, i - 1) else before
  }

  /** The tree after the levels up to j. */
  function Built(names: seq<string>, j: nat): Store {
    if j == 0 then BasePass(names, |names|) else LevelPass(names, Built(names, j - 1), j, |names|)
  }

  // ---------------------------------------------------------------- the functions themselves

  lemma {:induction false} DotsConcat(a: string, b: string)
    ensures Dots(a + b) == Dots(a) + Dots(b)
    decreases |b|
  {
    if b == "" {
      assert a + b == a;
    } else {
      assert (a + b)[..|a + b| - 1] == a + b[..|b| - 1];
      DotsConcat(a, b[..|b| - 1]);
    }
  }

  lemma {:induction false} NoDots(s: string)
    ensures Dots(s) == 0 <==> '.' !in s
  {
    if s != "" {
      NoDots(s[..|s| - 1]);
      assert s == s[..|s| - 1] + [s[|s| - 1]];
    }
  }

  class TypeTree {
    var names: seq<string>
    var levels: seq<nat>
    var maxLevel: nat
    var forest: seq<Row>
    var hash: map<string, string>
    ghost var index: map<string, Path>

    ghost predicate Valid()
      reads this
    {
      && |levels| == |names|
      && (forall i :: 0 <= i < |names| ==> |names[i]| < NAME_LENGTH && levels[i] in {Dots(names[i]), Level(names[i])})
      && (forall i :: 0 <= i < |names| ==> Dots(names[i]) <= maxLevel) && maxLevel < NAME_LENGTH
    }

    ghost predicate Hashed()
      reads this
    {
      hash == map n | n in index :: KeptPath(index[n])
    }

    constructor ()
      ensures Valid() && names == [] && maxLevel == 0
    {
      names, levels, maxLevel, forest, hash, index := [], [], 0, [], map[], map[];
    }

    /** handle_poitype_tree_cb, as far as the tree needs it: the name, its level, the largest level so far. */
    method HandleType(name: string)
      requires Valid() && |name| < NAME_LENGTH
      modifies this`names, this`levels, this`maxLevel
      ensures Valid() && names == old(names) + [name] && levels == old(levels) + [Dots(name)]
      ensures maxLevel == if Dots(name) > old(maxLevel) then Dots(name) else old(maxLevel)
    {
      var j := 0;
      for i := 0 to |name|
        invariant j == Dots(name[..i])
      {
        assert name[..i + 1][..i] == name[..i];
        if name[i] == '.' { j := j + 1; }
      }
      assert name[..|name|] == name;
      names := names + [name];
      levels := levels + [j];
      if maxLevel < j { maxLevel := j; }
    }

    /** The loop over strcspn in poitypetree_find_parent. */
    method FindParentName(i: nat) returns (parent: string)
      requires Valid() && i < |names| && levels[i] == Dots(names[i]) > 0
      ensures parent == ParentName(names[i])
    {
      hide Dots, PrefixBefore, LastDot;
      var name, level := names[i], levels[i];
      var l := 0;
      var k := level;
      NoSegment(name);
      while k > 0
        invariant 0 <= k <= level && SegmentsRead(name, level - k, l)
      {
        var n := PrefixBefore(name[level - k + l..], '.');
        NextSegment(name, level - k, l, n);
        l := l + n;
        k := k - 1;
      }
      LastDotIs(name, level + l - 1);
      parent := name[..level + l - 1];
    }

    /** poitypetree_addrow; the index is where the row now is. */
    method Addrow(i: nat, parent: Path)
      requires i < |names| && (parent == [] || ValidPath(forest, parent)) && Hashed()
      modifies this`forest, this`hash, this`index
      ensures Store(forest, index) == AddRow(names, Store(old(forest), old(index)), i, parent) && Hashed()
    {
      var path := NewPath(forest, parent);
      forest := Append(forest, parent, Row(i, names[i], []));
      hash := hash[names[i] := KeptPath(path)];
      index := index[names[i] := path];
    }

    ghost predicate Levelled(n: nat)
      reads this
    {
      n <= |names| == |levels| && forall k :: 0 <= k < n ==> levels[k] == Level(names[k])
    }

    /** The base categories, with the level of names without text put out of reach. */
    method AddBaseTypes()
      requires Valid() && Store(forest, index) == START && Hashed()
      modifies this`forest, this`hash, this`index, this`levels
      ensures Valid() && Hashed() && Levelled(|names|) && Store(forest, index) == BasePass(names, |names|)
    {
      hide KeptPath, Append, NewPath;
      var i := 0;
      while i < |names|
        invariant 0 <= i <= |names| && Valid() && Hashed() && Levelled(i)
        invariant Store(forest, index) == BasePass(names, i)
      {
        if |names[i]| > 0 {
          if levels[i] == 0 { Addrow(i, []); }
        } else {
          levels := levels[i := NO_NAME_LEVEL];
        }
        i := i + 1;
      }
    }

    /** The subcategories of one level. */
    method AddLevel(j: nat)
      requires Valid() && Hashed() && Levelled(|names|) && 1 <= j <= maxLevel
      modifies this`forest, this`hash, this`index
      ensures Hashed()
      ensures Store(forest, index) == LevelPass(names, Store(old(forest), old(index)), j, |names|)
    {
      hide KeptPath, Append, NewPath, FindFirst, Lower;
      ghost var st := Store(forest, index);
      var i := 0;
      while i < |names|
        invariant 0 <= i <= |names| && Hashed()
        invariant Store(forest, index) == LevelPass(names, st, j, i)
      {
        if levels[i] == j {
          var parent := FindParentName(i);
          FoundIsValid(forest, Lower(parent));
          var found := FindFirst(forest, Lower(parent));
          if found.Some? { Addrow(i, found.value); }
        }
        i := i + 1;
      }
    }

    /** create_poitype_tree. */
    method CreatePoitypeTree()
      requires Valid()
      modifies this`forest, this`hash, this`index, this`levels
      ensures Store(forest, index) == Built(names, maxLevel) && Hashed()
    {
      hide BasePass, LevelPass;
      hash := map[];
      index := map[];
      forest := [Row(-1, NO_FILTER, [])];
      AddBaseTypes();
      var j := 1;
      while j <= maxLevel
        invariant 1 <= j <= maxLevel + 1 && Valid() && Hashed() && Levelled(|names|)
        invariant Store(forest, index) == Built(names, j - 1)
      {
        AddLevel(j);
        j := j + 1;
      }
    }
  }

  lemma OneDot()
    ensures Dots(".") == 1
  {
    assert "."[..0] == "";
  }

  /** A text ends with its first dot, or has none. */
  lemma FirstSegment(rest: string, n: nat)
    requires n == PrefixBefore(rest, '.') && Dots(rest) > 0
    ensures n < |rest| && rest[n] == '.' && Dots(rest[..n + 1]) == 1
  {
    hide Dots, PrefixBefore;
    assert n == |rest| ==> rest[..n] == rest;
    NoDots(rest);
    assert rest[n] == '.';
    assert rest[..n + 1] == rest[..n] + ".";
    NoDots(rest[..n]);
    DotsConcat(rest[..n], ".");
    OneDot();
  }

  lemma NextSegment(name: string, k: nat, l: nat, n: nat)
    requires SegmentsRead(name, k, l) && k < Dots(name) && n == PrefixBefore(name[k + l..], '.')
    ensures SegmentsRead(name, k + 1, l + n)
  {
    hide Dots, PrefixBefore;
    var before, rest := name[..k + l], name[k + l..];
    assert name == before + rest;
    DotsConcat(before, rest);
    FirstSegment(rest, n);
    assert name[..k + l + n + 1] == before + rest[..n + 1];
    DotsConcat(before, rest[..n + 1]);
  }

  /** The loop has passed k segments of l characters in all, each with the dot that ends it. */
  predicate SegmentsRead(name: string, k: nat, l: nat) {
    k + l <= |name| && Dots(name[..k + l]) == k && (k == 0 ==> l == 0) && (k > 0 ==> name[k + l - 1] == '.')
  }

  lemma NoSegment(name: string)
    ensures SegmentsRead(name, 0, 0)
  {
    assert name[..0] == "";
  }

  lemma LastDotIs(name: string, d: nat)
    requires d < |name| && name[d] == '.' && Dots(name[..d + 1]) == Dots(name)
    ensures LastDot(name) == d
  {
    var rest := name[d + 1..];
    assert name == name[..d + 1] + rest;
    DotsConcat(name[..d + 1], rest);
    NoDots(rest);
    assert forall i :: d < i < |name| ==> name[i] == rest[i - d - 1];
  }
}
