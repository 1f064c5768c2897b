/** What the finished tree of POI types holds. */
module PoiTypesTree {
  import opened PoiTypes

  // ---------------------------------------------------------------- appending to a forest

  /** Appending adds the new path and changes no other row's id or name. */
  lemma {:induction false} AppendAdds(f: seq<Row>, parent: Path, row: Row, p: Path)
    requires (parent == [] || ValidPath(f, parent)) && row.children == []
    ensures var g := Append(f, parent, row);
      && (ValidPath(g, p) <==> ValidPath(f, p) || p == NewPath(f, parent))
      && (ValidPath(f, p) ==> RowAt(g, p).id == RowAt(f, p).id && RowAt(g, p).name == RowAt(f, p).name)
      && (p == NewPath(f, parent) ==> !ValidPath(f, p) && RowAt(g, p) == row)
    decreases |parent|
  {
    var g := Append(f, parent, row);
    if parent == [] {
      if p != [] && p[0] == |f| && |p| > 1 {
        assert g[p[0]] == row && !ValidPath(row.children, p[1..]);
      }
      if |p| == 1 && p[0] == |f| { assert p == [|f|]; }
    } else {
      var k := parent[0];
      if p != [] && p[0] == k && |p| > 1 {
        AppendAdds(f[k].children, parent[1..], row, p[1..]);
        assert p == [k] + p[1..];
        assert p == NewPath(f, parent) <==> p[1..] == NewPath(f[k].children, parent[1..]);
      } else {
        assert |NewPath(f, parent)| > 1 by { NewPathLength(f[k].children, parent[1..]); }
        assert NewPath(f, parent)[0] == k;
      }
    }
  }

  lemma {:induction false} NewPathLength(f: seq<Row>, parent: Path)
    requires parent == [] || ValidPath(f, parent)
    ensures |NewPath(f, parent)| == |parent| + 1 && NewPath(f, parent)[..|parent|] == parent
    decreases |parent|
  {
    if parent != [] {
      NewPathLength(f[parent[0]].children, parent[1..]);
    }
  }

  // ---------------------------------------------------------------- names and prefixes

  /** No two types have the same name; names may differ in the case of letters only. */
  predicate DistinctNames(names: seq<string>) {
    forall i, j :: 0 <= i < j < |names| && names[i] != "" ==> names[i] != names[j]
  }

  /** A row can be there for this name: some type has it, or it is the "no filter" row's. */
  predicate Listed(names: seq<string>, s: string) {
    Lower(s) == Lower(NO_FILTER) || (s != "" && exists k :: 0 <= k < |names| && Lower(names[k]) == Lower(s))
  }

  /** The name has text, and each of its dotted prefixes is listed. */
  predicate PrefixesListed(names: seq<string>, name: string) {
    name != "" && forall d :: 0 <= d < |name| && name[d] == '.' ==> Listed(names, name[..d])
  }

  lemma LowerPrefix(s: string, d: nat)
    requires d <= |s|
    ensures Lower(s[..d]) == Lower(s)[..d]
  {
  }

  lemma LowerKeepsDots(s: string, t: string)
    requires Lower(s) == Lower(t)
    ensures |s| == |t| && forall i :: 0 <= i < |s| ==> (s[i] == '.' <==> t[i] == '.')
  {
    hide Lower, LowerChar;
    assert |Lower(s)| == |s| && |Lower(t)| == |t|;
    forall i | 0 <= i < |s| ensures s[i] == '.' <==> t[i] == '.' {
      assert Lower(s)[i] == LowerChar(s[i]) && Lower(t)[i] == LowerChar(t[i]);
      OnlyDotIsDot(s[i]);
      OnlyDotIsDot(t[i]);
    }
  }

  lemma OnlyDotIsDot(c: char)
    ensures LowerChar(c) == '.' <==> c == '.'
  {
  }

  /** Names that differ only in case have the same dots and the same listed prefixes. */
  lemma {:induction false} SameDots(s: string, t: string)
    requires Lower(s) == Lower(t)
    ensures Dots(s) == Dots(t)
    decreases |s|
  {
    LowerKeepsDots(s, t);
    if s != "" {
      LowerPrefix(s, |s| - 1);
      LowerPrefix(t, |t| - 1);
      SameDots(s[..|s| - 1], t[..|t| - 1]);
    }
  }

  lemma SamePrefixes(names: seq<string>, s: string, t: string)
    requires Lower(s) == Lower(t) && PrefixesListed(names, s)
    ensures PrefixesListed(names, t)
  {
    LowerKeepsDots(s, t);
    forall d | 0 <= d < |t| && t[d] == '.' ensures Listed(names, t[..d]) {
      LowerPrefix(s, d);
      LowerPrefix(t, d);
      assert Listed(names, s[..d]);
      assert s[..d] != "" <==> t[..d] != "";
    }
  }

  lemma DotsBeforeLast(name: string, d: nat)
    requires d < |name| && name[d] == '.' && forall i :: d < i < |name| ==> name[i] != '.'
    ensures Dots(name[..d]) == Dots(name) - 1
  {
    hide Dots;
    var rest := name[d + 1..];
    assert name == name[..d] + ("." + rest);
    DotsConcat(name[..d], "." + rest);
    DotsConcat(".", rest);
    OneDot();
    NoDots(rest);
  }

  lemma ParentDots(name: string)
    requires Dots(name) > 0
    ensures LastDot(name) < |name| && Dots(ParentName(name)) == Dots(name) - 1
  {
    hide Dots, LastDot;
    NoDots(name);
    DotsBeforeLast(name, LastDot(name));
  }

  /** A dotted name's prefixes are its parent's prefixes and the parent itself. */
  lemma PrefixesOfChild(names: seq<string>, name: string)
    requires Dots(name) > 0
    ensures PrefixesListed(names, name) <==>
      var parent := ParentName(name);
      Listed(names, parent) && (parent == "" || PrefixesListed(names, parent))
  {
    hide Listed, Dots, PrefixesListed;
    ParentDots(name);
    var parent := ParentName(name);
    if PrefixesListed(names, name) { ParentOfListed(names, name); }
    if Listed(names, parent) && (parent == "" || PrefixesListed(names, parent)) { ChildOfListed(names, name); }
  }

  lemma ParentOfListed(names: seq<string>, name: string)
    requires LastDot(name) < |name| && PrefixesListed(names, name)
    ensures var parent := ParentName(name);
      Listed(names, parent) && (parent == "" || PrefixesListed(names, parent))
  {
    hide Listed;
    var parent, last := ParentName(name), LastDot(name);
    assert name[last] == '.' && name[..last] == parent;
    forall d | 0 <= d < |parent| && parent[d] == '.' ensures Listed(names, parent[..d]) {
      assert name[d] == '.' && name[..d] == parent[..d];
    }
  }

  lemma ChildOfListed(names: seq<string>, name: string)
    requires LastDot(name) < |name|
    requires var parent := ParentName(name);
      Listed(names, parent) && (parent == "" || PrefixesListed(names, parent))
    ensures PrefixesListed(names, name)
  {
    hide Listed;
    var parent, last := ParentName(name), LastDot(name);
    forall d | 0 <= d < |name| && name[d] == '.' ensures Listed(names, name[..d]) {
      if d < last {
        assert parent[d] == '.' && parent[..d] == name[..d];
      } else {
        assert d == last;
      }
    }
  }

  // ---------------------------------------------------------------- the invariant

  /** Row `name` stands where it belongs: a base type at the top, any other under its parent's row. */
  predicate Placed(f: seq<Row>, name: string, p: Path)
    requires ValidPath(f, p)
  {
    if Dots(name) == 0 then |p| == 1
    else |p| > 1 && ValidPath(f, p[..|p| - 1]) && Lower(RowAt(f, p[..|p| - 1]).name) == Lower(ParentName(name))
  }

  /** The index and the tree agree: every row but the first is at its name's path, and every path leads to its row. */
  ghost predicate Agree(names: seq<string>, st: Store) {
    && ValidPath(st.forest, [0]) && RowAt(st.forest, [0]).name == NO_FILTER && RowAt(st.forest, [0]).id == -1
    && (forall p: Path :: ValidPath(st.forest, p) && p != [0] ==>
          RowAt(st.forest, p).name in st.index && st.index[RowAt(st.forest, p).name] == p)
    && (forall n :: n in st.index ==> IndexHolds(names, st, n))
  }

  /** The index leads from a name to its row, which stands in its place and carries the type's number. */
  predicate IndexHolds(names: seq<string>, st: Store, n: string)
    requires n in st.index
  {
    var p := st.index[n];
    && ValidPath(st.forest, p) && p != [0] && RowAt(st.forest, p).name == n && Placed(st.forest, n, p)
    && 0 <= RowAt(st.forest, p).id < |names| && names[RowAt(st.forest, p).id] == n
  }

  /** Types handled before type i of level j. */
  predicate Handled(names: seq<string>, k: nat, j: nat, i: nat)
    requires k < |names|
  {
    Level(names[k]) < j || (Level(names[k]) == j && k < i)
  }

  /** The index holds exactly the handled types all of whose prefixes are listed. */
  ghost predicate Complete(names: seq<string>, st: Store, j: nat, i: nat) {
    && (forall n :: n in st.index ==>
          exists k :: 0 <= k < |names| && names[k] == n && Handled(names, k, j, i) && PrefixesListed(names, n))
    && (forall k :: 0 <= k < |names| && Handled(names, k, j, i) && PrefixesListed(names, names[k]) ==>
          names[k] in st.index)
  }

  lemma StartAgrees(names: seq<string>)
    ensures Agree(names, START) && Complete(names, START, 0, 0)
  {
    var f := START.forest;
    forall p: Path | ValidPath(f, p) ensures p == [0] {
      if |p| > 1 { assert f[p[0]].children == [] && !ValidPath([], p[1..]); }
    }
  }

  /** A name that was not handled has no row. */
  lemma NotYetThere(names: seq<string>, st: Store, j: nat, i: nat)
    requires DistinctNames(names) && i < |names| && names[i] != ""
    requires Complete(names, st, j, i) && Level(names[i]) == j
    ensures names[i] !in st.index
  {
  }

  lemma OldRowHolds(names: seq<string>, st: Store, i: nat, parent: Path, n: string)
    requires i < |names| && (parent == [] || ValidPath(st.forest, parent))
    requires n in st.index && n != names[i] && IndexHolds(names, st, n)
    ensures IndexHolds(names, AddRow(names, st, i, parent), n)
  {
    hide Lower, ParentName, Dots, ValidPath, RowAt, Append, NewPath;
    AppendAddsAll(st.forest, parent, Row(i, names[i], []));
  }

  lemma NewRowHolds(names: seq<string>, st: Store, i: nat, parent: Path)
    requires Agree(names, st) && i < |names| && (parent == [] || ValidPath(st.forest, parent))
    requires if Dots(names[i]) == 0 then parent == []
      else parent != [] && Lower(RowAt(st.forest, parent).name) == Lower(ParentName(names[i]))
    ensures IndexHolds(names, AddRow(names, st, i, parent), names[i])
  {
    hide Lower, ParentName, Dots, ValidPath, RowAt, Append, NewPath;
    AppendAddsAll(st.forest, parent, Row(i, names[i], []));
    NewPathLength(st.forest, parent);
    var q := NewPath(st.forest, parent);
    assert q[..|q| - 1] == parent;
  }

  lemma AddingKeepsAgree(names: seq<string>, st: Store, i: nat, parent: Path)
    requires Agree(names, st) && i < |names| && names[i] !in st.index
    requires parent == [] || ValidPath(st.forest, parent)
    requires if Dots(names[i]) == 0 then parent == []
      else parent != [] && Lower(RowAt(st.forest, parent).name) == Lower(ParentName(names[i]))
    ensures Agree(names, AddRow(names, st, i, parent))
    ensures AddRow(names, st, i, parent).index.Keys == st.index.Keys + {names[i]}
  {
    hide Lower, ParentName, Dots, ValidPath, RowAt, Append, NewPath, IndexHolds;
    var row := Row(i, names[i], []);
    var g, q := Append(st.forest, parent, row), NewPath(st.forest, parent);
    var r := AddRow(names, st, i, parent);
    AppendAddsAll(st.forest, parent, row);
    NewPathLength(st.forest, parent);
    forall n | n in r.index ensures IndexHolds(names, r, n) {
      if n != names[i] { OldRowHolds(names, st, i, parent, n); } else { NewRowHolds(names, st, i, parent); }
    }
    forall p: Path | ValidPath(g, p) && p != [0] ensures RowAt(g, p).name in r.index && r.index[RowAt(g, p).name] == p {
      if p != q { assert RowAt(g, p).name == RowAt(st.forest, p).name; }
    }
  }

  lemma AppendAddsAll(f: seq<Row>, parent: Path, row: Row)
    requires (parent == [] || ValidPath(f, parent)) && row.children == []
    ensures var g, q := Append(f, parent, row), NewPath(f, parent);
      && (forall p: Path :: ValidPath(g, p) <==> ValidPath(f, p) || p == q)
      && (forall p: Path :: ValidPath(f, p) ==>
            RowAt(g, p).id == RowAt(f, p).id && RowAt(g, p).name == RowAt(f, p).name)
      && !ValidPath(f, q) && RowAt(g, q) == row
  {
    hide ValidPath, RowAt, Append, NewPath;
    forall p: Path
      ensures ValidPath(Append(f, parent, row), p) <==> ValidPath(f, p) || p == NewPath(f, parent)
    {
      AppendAdds(f, parent, row, p);
    }
    forall p: Path | ValidPath(f, p)
      ensures RowAt(Append(f, parent, row), p).id == RowAt(f, p).id
        && RowAt(Append(f, parent, row), p).name == RowAt(f, p).name
    {
      AppendAdds(f, parent, row, p);
    }
    AppendAdds(f, parent, row, NewPath(f, parent));
  }

  /** In an agreeing store, the search finds a row exactly when some name matches. */
  lemma SearchFinds(names: seq<string>, st: Store, key: string)
    requires Agree(names, st)
    ensures FindFirst(st.forest, key).Some? <==>
      Lower(NO_FILTER) == key || exists n :: n in st.index && Lower(n) == key
  {
    hide Lower;
    FoundIsValid(st.forest, key);
    var found := FindFirst(st.forest, key);
    if found.Some? {
      if found.value != [0] { assert RowAt(st.forest, found.value).name in st.index; }
    } else {
      NotFoundIsAbsent(st.forest, key, [0]);
      forall n | n in st.index ensures Lower(n) != key {
        NotFoundIsAbsent(st.forest, key, st.index[n]);
      }
    }
  }

  /** The parent's row is there exactly when all of a name's prefixes are listed. */
  lemma ParentIsThere(names: seq<string>, st: Store, j: nat, i: nat)
    requires Agree(names, st) && Complete(names, st, j, i) && i < |names| && Level(names[i]) == j > 0 && names[i] != ""
    ensures FindFirst(st.forest, Lower(ParentName(names[i]))).Some? <==> PrefixesListed(names, names[i])
  {
    hide Lower, Dots, LastDot, FindFirst, Agree;
    var name, parent := names[i], ParentName(names[i]);
    hide ParentName;
    SearchFinds(names, st, Lower(parent));
    PrefixesOfChild(names, name);
    ParentDots(name);
    if n :| n in st.index && Lower(n) == Lower(parent) {
      var k :| 0 <= k < |names| && names[k] == n && Handled(names, k, j, i) && PrefixesListed(names, n);
      SamePrefixes(names, n, parent);
      LowerKeepsDots(n, parent);
      assert Listed(names, parent);
    }
    if PrefixesListed(names, name) && Lower(parent) != Lower(NO_FILTER) {
      var k :| 0 <= k < |names| && Lower(names[k]) == Lower(parent);
      LowerKeepsDots(names[k], parent);
      SamePrefixes(names, parent, names[k]);
      SameDots(names[k], parent);
      assert Handled(names, k, j, i);
    }
    if Lower(parent) == Lower(NO_FILTER) {
      NoFilterHasNoPrefixes(names, parent);
    }
  }

  lemma NoFilterHasNoPrefixes(names: seq<string>, s: string)
    requires Lower(s) == Lower(NO_FILTER)
    ensures PrefixesListed(names, s)
  {
    hide Listed, Lower;
    LowerKeepsDots(s, NO_FILTER);
    assert forall i :: 0 <= i < |NO_FILTER| ==> NO_FILTER[i] != '.';
  }

  // ---------------------------------------------------------------- the passes

  lemma {:induction false} BasePassHolds(names: seq<string>, i: nat)
    requires DistinctNames(names) && i <= |names|
    ensures Agree(names, BasePass(names, i)) && Complete(names, BasePass(names, i), 0, i)
  {
    hide Agree, Complete, Append, NewPath, PrefixesListed, DistinctNames, Level;
    if i == 0 {
      StartAgrees(names);
    } else {
      BasePassHolds(names, i - 1);
      var st, k := BasePass(names, i - 1), i - 1;
      if Level(names[k]) == 0 {
        BaseNamesAreListed(names, names[k]);
        NotYetThere(names, st, 0, k);
        AddingKeepsAgree(names, st, k, []);
      }
      CompleteStep(names, st, BasePass(names, i), 0, k);
    }
  }

  lemma BaseNamesAreListed(names: seq<string>, name: string)
    requires Level(name) == 0
    ensures name != "" && Dots(name) == 0 && PrefixesListed(names, name)
  {
    NoDots(name);
  }

  /** Handling type k adds its name exactly when it belongs. */
  lemma CompleteStep(names: seq<string>, st: Store, r: Store, j: nat, k: nat)
    requires k < |names| && Complete(names, st, j, k)
    requires r.index.Keys == st.index.Keys +
      if Level(names[k]) == j && PrefixesListed(names, names[k]) then {names[k]} else {}
    ensures Complete(names, r, j, k + 1)
  {
    hide PrefixesListed, Level;
    forall n | n in r.index
      ensures exists i :: 0 <= i < |names| && names[i] == n && Handled(names, i, j, k + 1) && PrefixesListed(names, n)
    {
      if n in st.index {
        var i :| 0 <= i < |names| && names[i] == n && Handled(names, i, j, k) && PrefixesListed(names, n);
        assert Handled(names, i, j, k + 1);
      } else {
        assert Handled(names, k, j, k + 1);
      }
    }
    forall i | 0 <= i < |names| && Handled(names, i, j, k + 1) && PrefixesListed(names, names[i])
      ensures names[i] in r.index
    {
      if !Handled(names, i, j, k) { assert i == k; }
    }
  }

  lemma NextLevel(names: seq<string>, st: Store, j: nat)
    requires Complete(names, st, j, |names|)
    ensures Complete(names, st, j + 1, 0)
  {
    hide PrefixesListed, Level;
    forall n | n in st.index
      ensures exists i :: 0 <= i < |names| && names[i] == n && Handled(names, i, j + 1, 0) && PrefixesListed(names, n)
    {
      var i :| 0 <= i < |names| && names[i] == n && Handled(names, i, j, |names|) && PrefixesListed(names, n);
      assert Handled(names, i, j + 1, 0);
    }
    forall i | 0 <= i < |names| && Handled(names, i, j + 1, 0) && PrefixesListed(names, names[i])
      ensures names[i] in st.index
    {
      assert Handled(names, i, j, |names|);
    }
  }

  lemma {:induction false} LevelPassHolds(names: seq<string>, st: Store, j: nat, i: nat)
    requires DistinctNames(names) && i <= |names| && 0 < j < NO_NAME_LEVEL
    requires Agree(names, st) && Complete(names, st, j, 0)
    ensures Agree(names, LevelPass(names, st, j, i)) && Complete(names, LevelPass(names, st, j, i), j, i)
  {
    hide Agree, Complete, FindFirst, PrefixesListed, PlaceChild, DistinctNames, Level;
    if i > 0 {
      LevelPassHolds(names, st, j, i - 1);
      var before, k := LevelPass(names, st, j, i - 1), i - 1;
      if Level(names[k]) == j {
        PlaceChildHolds(names, before, j, k);
      }
      CompleteStep(names, before, LevelPass(names, st, j, i), j, k);
    }
  }

  lemma PlaceChildHolds(names: seq<string>, st: Store, j: nat, k: nat)
    requires DistinctNames(names) && k < |names| && 0 < j < NO_NAME_LEVEL && Level(names[k]) == j
    requires Agree(names, st) && Complete(names, st, j, k)
    ensures var r := PlaceChild(names, st, k);
      Agree(names, r) && r.index.Keys == st.index.Keys + if PrefixesListed(names, names[k]) then {names[k]} else {}
  {
    hide Agree, Complete, FindFirst, PrefixesListed, Append, NewPath;
    ParentIsThere(names, st, j, k);
    var key := Lower(ParentName(names[k]));
    FoundIsValid(st.forest, key);
    var found := FindFirst(st.forest, key);
    if found.Some? {
      NotYetThere(names, st, j, k);
      AddingKeepsAgree(names, st, k, found.value);
    }
  }

  lemma {:induction false} BuiltHolds(names: seq<string>, j: nat)
    requires DistinctNames(names) && j < NO_NAME_LEVEL
    ensures Agree(names, Built(names, j)) && Complete(names, Built(names, j), j, |names|)
  {
    hide Agree, Complete, BasePass, LevelPass, DistinctNames;
    if j == 0 {
      BasePassHolds(names, |names|);
    } else {
      BuiltHolds(names, j - 1);
      NextLevel(names, Built(names, j - 1), j - 1);
      LevelPassHolds(names, Built(names, j - 1), j, |names|);
    }
  }

  // ---------------------------------------------------------------- the finished tree

  /** The first row of every finished tree is the one for no filter, which is no type. */
  lemma NoFilterIsFirst(names: seq<string>, maxLevel: nat)
    requires DistinctNames(names) && maxLevel < NO_NAME_LEVEL
    ensures var f := Built(names, maxLevel).forest;
      ValidPath(f, [0]) && RowAt(f, [0]).name == "__NO_FILTER__" && RowAt(f, [0]).id == -1
  {
    hide Built, ValidPath, RowAt, Complete;
    BuiltHolds(names, maxLevel);
  }

  /**
   The finished tree, for distinct names: a type has a row exactly when all of its
   dotted prefixes are listed; the index leads to it, and it stands under the row named by the text
   before its last dot, or at the top.
   */
  lemma FinishedTree(names: seq<string>, maxLevel: nat)
    requires DistinctNames(names) && maxLevel < NAME_LENGTH
    requires forall k :: 0 <= k < |names| ==> Dots(names[k]) <= maxLevel
    ensures var st := Built(names, maxLevel);
      && (forall k :: 0 <= k < |names| ==> (names[k] in st.index <==> PrefixesListed(names, names[k])))
      && (forall n :: n in st.index ==>
            && n in names && ValidPath(st.forest, st.index[n]) && RowAt(st.forest, st.index[n]).name == n
            && Placed(st.forest, n, st.index[n]))
  {
    hide Built, PrefixesListed, Dots, Placed, ValidPath, RowAt;
    BuiltHolds(names, maxLevel);
    var st := Built(names, maxLevel);
    forall k | 0 <= k < |names| ensures names[k] in st.index <==> PrefixesListed(names, names[k]) {
      hide Agree;
      if PrefixesListed(names, names[k]) {
        ListedHasText(names, names[k]);
        assert Handled(names, k, maxLevel, |names|);
      }
    }
    forall n | n in st.index
      ensures n in names && ValidPath(st.forest, st.index[n]) && RowAt(st.forest, st.index[n]).name == n
      ensures Placed(st.forest, n, st.index[n])
    {
      hide Complete;
      assert IndexHolds(names, st, n);
    }
  }

  lemma ListedHasText(names: seq<string>, name: string)
    requires PrefixesListed(names, name)
    ensures name != ""
  {
  }

  /** No type has two rows: every row but "no filter" is the one its name's index leads to, and carries its number. */
  lemma OneRowPerType(names: seq<string>, maxLevel: nat, p: Path)
    requires DistinctNames(names) && maxLevel < NAME_LENGTH
    requires ValidPath(Built(names, maxLevel).forest, p) && p != [0]
    ensures var st := Built(names, maxLevel);
      var row := RowAt(st.forest, p);
      && row.name in st.index && st.index[row.name] == p
      && 0 <= row.id < |names| && names[row.id] == row.name
  {
    hide Built, Complete, ValidPath, RowAt, Placed, DistinctNames;
    BuiltHolds(names, maxLevel);
    var st := Built(names, maxLevel);
    assert IndexHolds(names, st, RowAt(st.forest, p).name);
  }
}
