/** Where each type's row is, from the list of names alone. */
module PoiTypesPaths {
  import opened Common
  import opened PoiTypes
  import opened PoiTypesTree

  // ---------------------------------------------------------------- paths from names

  /** Types h and k hang under the same row. */
  predicate Siblings(names: seq<string>, h: nat, k: nat)
    requires h < |names| && k < |names|
  {
    && names[h] != "" && Dots(names[h]) == Dots(names[k])
    && (Dots(names[k]) > 0 ==> Lower(ParentName(names[h])) == Lower(ParentName(names[k])))
  }

  /** How many of the first i types are siblings of type k. */
  function Rank(names: seq<string>, i: nat, k: nat): (r: nat)
    requires i <= |names| && k < |names|
    ensures r <= i
  {
    if i == 0 then 0 else Rank(names, i - 1, k) + if Siblings(names, i - 1, k) then 1 else 0
  }

  /** The first type with this name, case aside, or the number of types. */
  function FirstLike(names: seq<string>, key: string): (k: nat)
    ensures k <= |names|
    ensures forall i :: 0 <= i < k ==> names[i] == "" || Lower(names[i]) != key
    ensures k < |names| ==> names[k] != "" && Lower(names[k]) == key
  {
    if names == [] || (names[0] != "" && Lower(names[0]) == key) then 0 else 1 + FirstLike(names[1..], key)
  }

  /** A child's level is one more than that of any type named like its parent. */
  lemma ParentLevel(child: string, like: string)
    requires Dots(child) > 0 && Lower(like) == Lower(ParentName(child))
    ensures Dots(like) == Dots(child) - 1
  {
    ParentDots(child);
    SameDots(like, ParentName(child));
  }

  /** Path of the row a type hangs under: [] for the top, [0] for the "no filter" row. */
  function ParentPath(names: seq<string>, k: nat): Path
    requires k < |names|
    decreases Dots(names[k]), 0
  {
    if Dots(names[k]) == 0 then []
    else
      var key := Lower(ParentName(names[k]));
      if key == Lower(NO_FILTER) then [0]
      else
        var f := FirstLike(names, key);
        if f == |names| then []
        else
          ParentLevel(names[k], names[f]);
          PathOf(names, f)
  }

  /** Path of a type's row: its place among its siblings, in the order of the list; the "no filter" row is the first. */
  function PathOf(names: seq<string>, k: nat): Path
    requires k < |names|
    decreases Dots(names[k]), 1
  {
    ParentPath(names, k) + [Rank(names, k, k) + if Dots(names[k]) == 0 then 1 else 0]
  }

  lemma {:induction false} RankGrows(names: seq<string>, i: nat, j: nat, k: nat)
    requires i <= j <= |names| && k < |names|
    ensures Rank(names, i, k) <= Rank(names, j, k)
    ensures i < j && Siblings(names, i, k) ==> Rank(names, i, k) < Rank(names, j, k)
    decreases j
  {
    hide Siblings;
    if i < j { RankGrows(names, i, j - 1, k); }
  }

  lemma {:induction false} SiblingsRankAlike(names: seq<string>, i: nat, h: nat, k: nat)
    requires i <= |names| && h < |names| && k < |names| && Siblings(names, h, k)
    ensures Rank(names, i, h) == Rank(names, i, k)
  {
    hide Dots, Lower, LastDot;
    if i > 0 { SiblingsRankAlike(names, i - 1, h, k); }
  }

  /** Every smaller rank belongs to an earlier sibling. */
  lemma {:induction false} RankIsTaken(names: seq<string>, i: nat, k: nat, r: nat) returns (h: nat)
    requires i <= |names| && k < |names| && r < Rank(names, i, k)
    ensures h < i && Siblings(names, h, k) && Rank(names, h, k) == r
  {
    hide Siblings;
    if r == Rank(names, i - 1, k) { h := i - 1; } else { h := RankIsTaken(names, i - 1, k, r); }
  }

  lemma {:induction false} ParentOfLike(s: string, t: string)
    requires Lower(s) == Lower(t)
    ensures LastDot(s) == LastDot(t) && Lower(ParentName(s)) == Lower(ParentName(t))
  {
    hide Lower, LastDot;
    LowerKeepsDots(s, t);
    var d, e := LastDot(s), LastDot(t);
    assert (e < |s| ==> s[e] == '.') && (d < |t| ==> t[d] == '.');
    LowerPrefix(s, d);
    LowerPrefix(t, d);
  }

  lemma SiblingParents(names: seq<string>, h: nat, k: nat)
    requires h < |names| && k < |names| && Siblings(names, h, k)
    ensures ParentPath(names, h) == ParentPath(names, k)
  {
    hide Dots, Lower, LastDot, PathOf;
  }

  /** Siblings have the same listed prefixes. */
  lemma SiblingsListedAlike(names: seq<string>, h: nat, k: nat)
    requires h < |names| && k < |names| && Siblings(names, h, k) && PrefixesListed(names, names[k])
    ensures PrefixesListed(names, names[h])
  {
    hide Lower, LastDot, Dots, PrefixesListed;
    if Dots(names[k]) == 0 {
      BaseHasPrefixes(names, names[h]);
    } else {
      var p, q := ParentName(names[h]), ParentName(names[k]);
      hide ParentName;
      PrefixesOfChild(names, names[h]);
      PrefixesOfChild(names, names[k]);
      LowerKeepsDots(p, q);
      if q != "" { SamePrefixes(names, q, p); }
    }
  }

  lemma BaseHasPrefixes(names: seq<string>, name: string)
    requires name != "" && Dots(name) == 0
    ensures PrefixesListed(names, name)
  {
    NoDots(name);
  }

  // ---------------------------------------------------------------- the search finds the first row

  /** Order of rows in a walk that visits parents before children. */
  predicate Before(p: Path, q: Path)
    decreases |p|
  {
    p == [] || (q != [] && (p[0] < q[0] || (p[0] == q[0] && Before(p[1..], q[1..]))))
  }

  lemma {:induction false} FoundIsFirst(f: seq<Row>, key: string, q: Path)
    requires ValidPath(f, q) && Lower(RowAt(f, q).name) == key
    ensures FindFirst(f, key).Some? && Before(FindFirst(f, key).value, q)
    decreases f, q
  {
    hide Lower;
    FoundIsValid(f, key);
    if FindFirst(f, key).None? {
      NotFoundIsAbsent(f, key, q);
    } else if Lower(f[0].name) == key {
      assert [0][1..] == [];
    } else if q[0] == 0 {
      FoundIsFirst(f[0].children, key, q[1..]);
      var p := FindFirst(f[0].children, key).value;
      assert ([0] + p)[1..] == p;
    } else if FindFirst(f[0].children, key).None? {
      var q': Path := [q[0] - 1] + q[1..];
      assert q'[1..] == q[1..] && f[q[0]] == f[1..][q'[0]];
      FoundIsFirst(f[1..], key, q');
      FoundIsValid(f[1..], key);
      var p := FindFirst(f[1..], key).value;
      assert ([p[0] + 1] + p[1..])[1..] == p[1..];
    }
  }

  lemma {:induction false} BeforeSibling(p: Path, a: nat, b: nat)
    requires Before(p + [a], p + [b])
    ensures a <= b
  {
    if p != [] {
      assert (p + [a])[1..] == p[1..] + [a] && (p + [b])[1..] == p[1..] + [b];
      BeforeSibling(p[1..], a, b);
    }
  }

  // ---------------------------------------------------------------- a new row's path

  /** A row with c children has just the paths p + [0] .. p + [c - 1] below it, and the next child gets p + [c]. */
  lemma {:induction false} NextChild(f: seq<Row>, p: Path) returns (c: nat)
    requires p == [] || ValidPath(f, p)
    ensures NewPath(f, p) == p + [c]
    ensures forall x: nat :: ValidPath(f, p + [x]) <==> x < c
    decreases |p|
  {
    if p == [] {
      c := |f|;
    } else {
      var g := f[p[0]].children;
      c := NextChild(g, p[1..]);
      assert [p[0]] + (p[1..] + [c]) == p + [c];
      forall x: nat ensures ValidPath(f, p + [x]) <==> x < c {
        assert (p + [x])[1..] == p[1..] + [x];
      }
    }
  }

  /** Every row that is there is where its name's place in the list puts it. */
  predicate Ranked(names: seq<string>, st: Store) {
    forall k :: 0 <= k < |names| && names[k] in st.index ==> st.index[names[k]] == PathOf(names, k)
  }

  /** A name in the index is that of a type handled before. */
  lemma IndexedType(names: seq<string>, st: Store, j: nat, i: nat, n: string) returns (k: nat)
    requires Agree(names, st) && Complete(names, st, j, i) && Ranked(names, st) && n in st.index
    ensures k < |names| && names[k] == n && Handled(names, k, j, i) && PrefixesListed(names, n) && n != ""
    ensures st.index[n] == PathOf(names, k) && IndexHolds(names, st, n)
  {
    hide PrefixesListed, PathOf, Handled, IndexHolds, ValidPath, RowAt, Level;
    k :| 0 <= k < |names| && names[k] == n && Handled(names, k, j, i) && PrefixesListed(names, n);
    ListedHasText(names, n);
  }

  /** The row found for the parent's name is the one that the list of names says. */
  lemma FoundIsParent(names: seq<string>, st: Store, j: nat, i: nat)
    requires Agree(names, st) && Complete(names, st, j, i) && Ranked(names, st) && DistinctNames(names)
    requires i < |names| && names[i] != "" && Dots(names[i]) == j > 0
    requires FindFirst(st.forest, Lower(ParentName(names[i]))).Some?
    ensures FindFirst(st.forest, Lower(ParentName(names[i]))).value == ParentPath(names, i)
  {
    hide Lower, Dots, LastDot, PathOf, PrefixesListed, IndexHolds, Complete;
    var key := Lower(ParentName(names[i]));
    FoundIsValid(st.forest, key);
    var p := FindFirst(st.forest, key).value;
    if key == Lower(NO_FILTER) {
      FoundIsFirst(st.forest, key, [0]);
      FirstRowIsFound(st.forest, key);
    } else {
      var n := RowAt(st.forest, p).name;
      assert p != [0];
      hide ParentName, FindFirst, RowAt, ValidPath, DistinctNames;
      var k := IndexedType(names, st, j, i, n);
      ParentLevel(names[i], n);
      FirstIsThere(names, st, j, i, k, key);
      FirstOfSiblings(names, st, key, k, p);
    }
  }

  /** Of the rows with one name, case aside, the search finds the one of the first type. */
  lemma FirstOfSiblings(names: seq<string>, st: Store, key: string, k: nat, p: Path)
    requires Agree(names, st) && Ranked(names, st)
    requires k < |names| && names[k] in st.index && st.index[names[k]] == p && FindFirst(st.forest, key) == Some(p)
    requires var f := FirstLike(names, key); f <= k && names[f] in st.index && Siblings(names, f, k)
    requires Lower(names[FirstLike(names, key)]) == key
    ensures FirstLike(names, key) == k
  {
    hide Lower, Siblings, Dots, FirstLike, FindFirst, ValidPath, RowAt, Placed;
    var f := FirstLike(names, key);
    var q := st.index[names[f]];
    assert IndexHolds(names, st, names[f]);
    FoundIsFirst(st.forest, key, q);
    if f < k {
      SiblingParents(names, f, k);
      SiblingsRankAlike(names, f, f, k);
      RankGrows(names, f, k, k);
      SiblingDots(names, f, k);
      hide ParentPath, Rank;
      BeforeSibling(ParentPath(names, k), p[|p| - 1], q[|q| - 1]);
    }
  }

  lemma SiblingDots(names: seq<string>, h: nat, k: nat)
    requires h < |names| && k < |names| && Siblings(names, h, k)
    ensures names[h] != "" && Dots(names[h]) == Dots(names[k])
  {
  }

  lemma FirstRowIsFound(f: seq<Row>, key: string)
    requires f != [] && Lower(f[0].name) == key
    ensures FindFirst(f, key) == Some([0])
  {
    hide Lower;
  }

  /** With one type of that name, case aside, the first one has its row too. */
  lemma FirstIsThere(names: seq<string>, st: Store, j: nat, i: nat, k: nat, key: string)
    requires Complete(names, st, j, i) && k < |names| && Lower(names[k]) == key
    requires names[k] != "" && Handled(names, k, j, i) && Dots(names[k]) < j && PrefixesListed(names, names[k])
    ensures var f := FirstLike(names, key); f <= k && names[f] in st.index && Siblings(names, f, k)
  {
    hide Lower, Dots, LastDot, PrefixesListed;
    var f := FirstLike(names, key);
    SamePrefixes(names, names[k], names[f]);
    SameDots(names[f], names[k]);
    ParentOfLike(names[f], names[k]);
    assert Handled(names, f, j, i);
  }

  // ---------------------------------------------------------------- every row is where the list says

  /** An earlier sibling has its row. */
  lemma EarlierSiblingIsThere(names: seq<string>, st: Store, i: nat, h: nat)
    requires i < |names| && PrefixesListed(names, names[i]) && Complete(names, st, Dots(names[i]), i)
    requires h < i && Siblings(names, h, i)
    ensures names[h] in st.index
  {
    hide Lower, LastDot, PrefixesListed;
    SiblingsListedAlike(names, h, i);
    hide Dots;
    assert Handled(names, h, Dots(names[i]), i);
  }

  /** A row at the place that type i will take would be that of an earlier sibling with the same rank. */
  lemma PlaceIsFree(names: seq<string>, st: Store, i: nat, p: Path)
    requires i < |names| && names[i] != ""
    requires Agree(names, st) && Complete(names, st, Dots(names[i]), i) && Ranked(names, st)
    requires if Dots(names[i]) == 0 then p == []
      else ValidPath(st.forest, p) && Lower(RowAt(st.forest, p).name) == Lower(ParentName(names[i]))
    ensures !ValidPath(st.forest, p + [Rank(names, i, i) + if Dots(names[i]) == 0 then 1 else 0])
  {
    hide Lower, Dots, PathOf, PrefixesListed, ParentName, RowAt, Rank, Complete;
    var j := Dots(names[i]);
    var q := p + [Rank(names, i, i) + if j == 0 then 1 else 0];
    if ValidPath(st.forest, q) {
      assert q != [0];
      hide ValidPath;
      var h := IndexedType(names, st, j, i, RowAt(st.forest, q).name);
      assert q[..|q| - 1] == p;
      PlacedBesides(names, st.forest, h, i, p, q);
      assert Handled(names, h, j, i);
      SiblingsRankAlike(names, h, h, i);
      RankGrows(names, h, i, i);
      LastOfPath(names, h);
      assert false;
    }
  }

  lemma LastOfPath(names: seq<string>, k: nat)
    requires k < |names|
    ensures var p := PathOf(names, k); p[|p| - 1] == Rank(names, k, k) + if Dots(names[k]) == 0 then 1 else 0
  {
    hide Dots, ParentPath, Rank;
  }

  /** A type placed next to where type i belongs is a sibling of it. */
  lemma PlacedBesides(names: seq<string>, f: seq<Row>, h: nat, i: nat, p: Path, q: Path)
    requires h < |names| && i < |names| && names[h] != ""
    requires q != [] && q[..|q| - 1] == p && ValidPath(f, q) && Placed(f, names[h], q)
    requires if Dots(names[i]) == 0 then p == []
      else ValidPath(f, p) && Lower(RowAt(f, p).name) == Lower(ParentName(names[i]))
    ensures Siblings(names, h, i)
  {
    hide Lower, LastDot, Dots, RowAt;
    if Dots(names[i]) > 0 {
      ParentDots(names[h]);
      ParentDots(names[i]);
      SameDots(ParentName(names[h]), ParentName(names[i]));
    }
  }

  /** The new row of type i gets the path that its place in the list says. */
  lemma NewRowIsRanked(names: seq<string>, st: Store, i: nat, p: Path)
    requires i < |names| && names[i] != "" && PrefixesListed(names, names[i])
    requires Agree(names, st) && Complete(names, st, Dots(names[i]), i) && Ranked(names, st)
    requires if Dots(names[i]) == 0 then p == []
      else ValidPath(st.forest, p) && Lower(RowAt(st.forest, p).name) == Lower(ParentName(names[i]))
    requires p == ParentPath(names, i)
    ensures NewPath(st.forest, p) == PathOf(names, i)
  {
    hide Lower, Dots, PrefixesListed, Placed, NewPath, RowAt, ParentName, Complete, ParentPath;
    PathIs(names, i);
    hide PathOf, Siblings, Ranked, Agree;
    var base := if Dots(names[i]) == 0 then 1 else 0;
    var r := Rank(names, i, i) + base;
    PlaceIsFree(names, st, i, p);
    var c := NextChild(st.forest, p);
    if Rank(names, i, i) > 0 {
      var h := RankIsTaken(names, i, i, Rank(names, i, i) - 1);
      EarlierSiblingStands(names, st, i, h);
    } else if base == 1 {
      NoFilterStands(names, st);
      assert [0] == p + [r - 1];
    }
    assert !ValidPath(st.forest, p + [r]);
    assert c == r;
  }

  lemma PathIs(names: seq<string>, i: nat)
    requires i < |names|
    ensures PathOf(names, i) == ParentPath(names, i) + [Rank(names, i, i) + if Dots(names[i]) == 0 then 1 else 0]
  {
    hide ParentPath, Rank, Dots;
  }

  lemma NoFilterStands(names: seq<string>, st: Store)
    requires Agree(names, st)
    ensures ValidPath(st.forest, [0])
  {
  }

  /** An earlier sibling has its row, below the same parent. */
  lemma EarlierSiblingStands(names: seq<string>, st: Store, i: nat, h: nat)
    requires i < |names| && PrefixesListed(names, names[i]) && h < i && Siblings(names, h, i)
    requires Agree(names, st) && Complete(names, st, Dots(names[i]), i) && Ranked(names, st)
    ensures ValidPath(st.forest, PathOf(names, h))
    ensures PathOf(names, h) == ParentPath(names, i) + [Rank(names, h, i) + if Dots(names[i]) == 0 then 1 else 0]
  {
    hide Lower, Dots, PrefixesListed, Placed, RowAt, ParentName, Complete, ParentPath, PathOf, Siblings, ValidPath,
      Rank;
    EarlierSiblingIsThere(names, st, i, h);
    SiblingParents(names, h, i);
    SiblingsRankAlike(names, h, h, i);
    SiblingDots(names, h, i);
    PathIs(names, h);
    assert IndexHolds(names, st, names[h]);
  }

  lemma AddingKeepsRanked(names: seq<string>, st: Store, i: nat, p: Path)
    requires i < |names| && names[i] != "" && PrefixesListed(names, names[i]) && DistinctNames(names)
    requires Agree(names, st) && Complete(names, st, Dots(names[i]), i) && Ranked(names, st)
    requires if Dots(names[i]) == 0 then p == []
      else ValidPath(st.forest, p) && Lower(RowAt(st.forest, p).name) == Lower(ParentName(names[i]))
    requires p == ParentPath(names, i)
    ensures Ranked(names, AddRow(names, st, i, p))
  {
    NewRowIsRanked(names, st, i, p);
    hide Lower, Dots, PrefixesListed, Agree, Complete, NewPath, Append, RowAt, ParentName, PathOf, ValidPath,
      ParentPath;
  }

  lemma {:induction false} BasePassRanked(names: seq<string>, i: nat)
    requires DistinctNames(names) && i <= |names|
    ensures Ranked(names, BasePass(names, i))
  {
    hide Agree, Complete, Ranked, PathOf, DistinctNames, PrefixesListed, Dots, AddRow;
    if i == 0 {
      StartIsRanked(names);
    } else {
      BasePassRanked(names, i - 1);
      BasePassHolds(names, i - 1);
      var k := i - 1;
      if Level(names[k]) == 0 {
        BaseNamesAreListed(names, names[k]);
        AddingKeepsRanked(names, BasePass(names, k), k, []);
      }
    }
  }

  lemma StartIsRanked(names: seq<string>)
    ensures Ranked(names, START)
  {
  }

  lemma PlaceChildRanked(names: seq<string>, st: Store, j: nat, k: nat)
    requires DistinctNames(names) && k < |names| && 0 < j < NO_NAME_LEVEL && Level(names[k]) == j
    requires Agree(names, st) && Complete(names, st, j, k) && Ranked(names, st)
    ensures Ranked(names, PlaceChild(names, st, k))
  {
    hide Agree, Complete, Ranked, PathOf, ParentPath, FindFirst, DistinctNames, PrefixesListed, Dots, Lower, AddRow;
    var key := Lower(ParentName(names[k]));
    ParentIsThere(names, st, j, k);
    FoundIsValid(st.forest, key);
    if FindFirst(st.forest, key).Some? {
      FoundIsParent(names, st, j, k);
      AddingKeepsRanked(names, st, k, FindFirst(st.forest, key).value);
    }
  }

  lemma {:induction false} LevelPassRanked(names: seq<string>, st: Store, j: nat, i: nat)
    requires DistinctNames(names) && i <= |names| && 0 < j < NO_NAME_LEVEL
    requires Agree(names, st) && Complete(names, st, j, 0) && Ranked(names, st)
    ensures Ranked(names, LevelPass(names, st, j, i))
  {
    hide Agree, Complete, Ranked, DistinctNames, PlaceChild, Level;
    if i > 0 {
      LevelPassRanked(names, st, j, i - 1);
      LevelPassHolds(names, st, j, i - 1);
      if Level(names[i - 1]) == j { PlaceChildRanked(names, LevelPass(names, st, j, i - 1), j, i - 1); }
    }
  }

  /** In the finished tree every row is where the list of names says. */
  lemma {:induction false} BuiltRanked(names: seq<string>, j: nat)
    requires DistinctNames(names) && j < NO_NAME_LEVEL
    ensures Ranked(names, Built(names, j))
  {
    hide Agree, Complete, Ranked, BasePass, LevelPass, DistinctNames;
    if j == 0 {
      BasePassRanked(names, |names|);
    } else {
      BuiltRanked(names, j - 1);
      BuiltHolds(names, j - 1);
      NextLevel(names, Built(names, j - 1), j - 1);
      LevelPassRanked(names, Built(names, j - 1), j, |names|);
    }
  }
}
