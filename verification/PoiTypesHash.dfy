/** Following the path text that the hash table keeps for a type, as its users do. */
module PoiTypesHash {
  import opened Common
  import opened Decimal
  import opened PoiTypes
  import opened PoiTypesTree
  import opened PoiTypesPaths

  // ---------------------------------------------------------------- path texts

  /**
   gtk_tree_path_new_from_string on digits and colons: numbers separated by single colons. strtol reads 0
   where nothing is left, so a text that ends with a colon gets one more index, 0.
   */
  function ParsePath(s: string): Option<Path>
    decreases |s|
  {
    var (d, rest) := Digits(s);
    if rest == "" then Some([NatValue(d)])
    else if d == "" || rest[0] != ':' then None
    else
      match ParsePath(rest[1..])
      case None => None
      case Some(p) => Some([NatValue(d)] + p)
  }

  lemma ParseNumber(d: string)
    requires AllDigits(d)
    ensures ParsePath(d) == Some([NatValue(d)])
  {
    hide NatValue;
    DigitsThenRest(d, "");
    assert d + "" == d;
  }

  lemma ParseStep(d: string, rest: string)
    requires AllDigits(d) && d != ""
    ensures ParsePath(d + (":" + rest)) ==
      if ParsePath(rest).None? then None else Some([NatValue(d)] + ParsePath(rest).value)
  {
    hide NatValue, Digits;
    DigitsThenRest(d, ":" + rest);
    assert (":" + rest)[1..] == rest;
  }

  lemma TextStep(p: Path)
    requires |p| > 1
    ensures PathText(p) == NatText(p[0]) + (":" + PathText(p[1..])) && PathText([p[0]] + p[1..]) == PathText(p)
  {
    hide NatText;
    assert [p[0]] + p[1..] == p;
    assert NatText(p[0]) + ":" + PathText(p[1..]) == NatText(p[0]) + (":" + PathText(p[1..]));
  }

  /** A whole path text leads back to its path. */
  lemma {:induction false} PathTextReads(p: Path)
    requires p != []
    ensures ParsePath(PathText(p)) == Some(p)
    decreases |p|
  {
    hide NatText, NatValue, ParsePath, PathText;
    TextValue(p[0]);
    if |p| == 1 {
      OneNumber(p[0]);
      ParseNumber(NatText(p[0]));
      assert p == [p[0]];
    } else {
      TextStep(p);
      PathTextReads(p[1..]);
      ParseStep(NatText(p[0]), PathText(p[1..]));
      assert [p[0]] + p[1..] == p;
    }
  }

  lemma OneNumber(n: nat)
    ensures PathText([n]) == NatText(n)
  {
  }

  /** A front part of a number is the text of a number. */
  lemma {:induction false} FrontOfNumber(m: nat, n: nat)
    requires 0 < n <= |NatText(m)|
    ensures NatText(NatValue(NatText(m)[..n])) == NatText(m)[..n]
    decreases m
  {
    hide NatValue;
    var t := NatText(m);
    if n == |t| {
      assert t[..n] == t;
      TextValue(m);
    } else {
      assert m >= 10 && t[..n] == NatText(m / 10)[..n];
      FrontOfNumber(m / 10, n);
    }
  }

  /** What a text cut after n characters is read as: the path with that text, or with a 0 after a final colon. */
  lemma {:induction false} CutReads(p: Path, n: nat) returns (q: Path)
    requires p != [] && 0 < n <= |PathText(p)|
    ensures var cut := PathText(p)[..n];
      q != [] && ParsePath(cut) == Some(q) && PathText(q) == cut + if cut[n - 1] == ':' then "0" else ""
    decreases |p|
  {
    hide NatText, NatValue, ParsePath, PathText;
    var t := NatText(p[0]);
    if |p| > 1 { TextStep(p); } else { OneNumber(p[0]); assert p == [p[0]]; }
    var s := PathText(p);
    TextValue(p[0]);
    if n <= |t| {
      assert s[..n] == t[..n];
      q := [NatValue(t[..n])];
      ParseNumber(t[..n]);
      FrontOfNumber(p[0], n);
      OneNumber(q[0]);
      assert IsDigit(s[..n][n - 1]);
    } else {
      var rest := PathText(p[1..]);
      var k := n - |t| - 1;
      assert s[..n] == t + (":" + rest[..k]);
      ParseStep(t, rest[..k]);
      if k == 0 {
        assert rest[..k] == "";
        ParseNumber("");
        NumberZero();
        q := [p[0], 0];
        assert q[1..] == [0] && [p[0]] + [0] == q;
        OneNumber(0);
        TextStep(q);
        assert t + (":" + "") + "0" == t + (":" + "0");
      } else {
        var more := CutReads(p[1..], k);
        q := [p[0]] + more;
        assert q[1..] == more && q[0] == p[0];
        TextStep(q);
        assert s[..n][n - 1] == rest[..k][k - 1];
        var tail := if rest[..k][k - 1] == ':' then "0" else "";
        assert t + (":" + rest[..k]) + tail == t + (":" + (rest[..k] + tail));
      }
    }
  }

  lemma NumberZero()
    ensures NatValue("") == 0 && NatText(0) == "0"
  {
  }

  /** The text survives the cut to 14 characters: it is short enough, or only a final index 0 is lost. */
  predicate Fits(text: string) {
    |text| < PATH_LENGTH || (|text| == PATH_LENGTH && text[PATH_LENGTH - 2..] == ":0")
  }

  lemma FitsMeans(s: string)
    requires |s| >= PATH_LENGTH
    ensures var n := PATH_LENGTH - 1; Fits(s) <==> s[n - 1] == ':' && s == s[..n] + "0"
  {
    var n := PATH_LENGTH - 1;
    assert s[n - 1..][0] == s[n - 1] && s[n - 1..][1] == s[n];
    if s[n - 1] == ':' && s == s[..n] + "0" { assert s[n - 1..] == ":0"; }
    if Fits(s) { assert s == s[..n] + "0"; }
  }

  /** The kept text leads back to the path exactly when its text fits. */
  lemma KeptPathReads(p: Path)
    requires p != []
    ensures ParsePath(KeptPath(p)) == Some(p) <==> Fits(PathText(p))
  {
    hide ParsePath, PathText;
    var s := PathText(p);
    PathTextReads(p);
    if |s| >= PATH_LENGTH {
      hide Fits;
      var q := CutReads(p, PATH_LENGTH - 1);
      PathTextReads(q);
      FitsMeans(s);
    }
  }

  // ---------------------------------------------------------------- the hash table leads to the rows

  /** gtk_tree_model_get_iter_from_string reaches the row of type k. */
  predicate LeadsTo(f: seq<Row>, text: string, k: int) {
    var p := ParsePath(text);
    p.Some? && ValidPath(f, p.value) && RowAt(f, p.value).id == k
  }

  /**
   In the finished tree the row of a type is where the list of names puts it, and the text that the hash
   table keeps for its name leads there exactly when the text of that place fits.
   */
  lemma HashLeadsToRow(names: seq<string>, maxLevel: nat, k: nat)
    requires DistinctNames(names) && maxLevel < NAME_LENGTH
    requires forall i :: 0 <= i < |names| ==> Dots(names[i]) <= maxLevel
    requires k < |names| && PrefixesListed(names, names[k])
    ensures var st := Built(names, maxLevel);
      && names[k] in st.index && st.index[names[k]] == PathOf(names, k) && LeadsToIndex(names, st, k)
      && (LeadsTo(st.forest, KeptPath(st.index[names[k]]), k) <==> Fits(PathText(PathOf(names, k))))
  {
    hide Built, PrefixesListed, Dots, Placed, ValidPath, RowAt, PathOf, Complete, ParsePath, Fits, KeptPath, PathText;
    FinishedTree(names, maxLevel);
    BuiltRanked(names, maxLevel);
    BuiltHolds(names, maxLevel);
    var st := Built(names, maxLevel);
    var p := PathOf(names, k);
    assert IndexHolds(names, st, names[k]);
    ListedHasText(names, names[k]);
    assert RowAt(st.forest, p).id == k;
    PathIsNotEmpty(names, k);
    KeptPathReads(p);
    var q := ParsePath(KeptPath(p));
    if q.Some? && ValidPath(st.forest, q.value) && q.value != [0] && RowAt(st.forest, q.value).id == k {
      assert IndexHolds(names, st, RowAt(st.forest, q.value).name);
    }
  }

  predicate LeadsToIndex(names: seq<string>, st: Store, k: nat)
    requires k < |names| && names[k] in st.index
  {
    ValidPath(st.forest, st.index[names[k]]) && RowAt(st.forest, st.index[names[k]]).id == k
  }

  lemma PathIsNotEmpty(names: seq<string>, k: nat)
    requires k < |names|
    ensures PathOf(names, k) != []
  {
    hide Dots, ParentPath, Rank;
  }

  // ---------------------------------------------------------------- when names are few and shallow

  /** One more index at the end of a path. */
  lemma {:induction false} TextAppend(p: Path, x: nat)
    requires p != []
    ensures PathText(p + [x]) == PathText(p) + (":" + NatText(x))
    decreases |p|
  {
    hide NatText, PathText;
    var q := p + [x];
    TextStep(q);
    if |p| == 1 {
      assert q[1..] == [x] && p == [p[0]];
      OneNumber(x);
      OneNumber(p[0]);
    } else {
      assert q[1..] == p[1..] + [x];
      TextAppend(p[1..], x);
      TextStep(p);
      var t, u := PathText(p[1..]), ":" + NatText(x);
      assert NatText(p[0]) + (":" + (t + u)) == NatText(p[0]) + (":" + t) + u;
    }
  }

  lemma DigitsGrow(m: nat, n: nat)
    requires m <= n
    ensures |NatText(m)| <= |NatText(n)|
  {
    hide NatText, Pow10;
    TextLength(m, |NatText(n)|);
    TextLength(n, |NatText(n)|);
  }

  /** The row a type hangs under: none, "no filter", or that of a type with one dot less. */
  lemma ParentPathCases(names: seq<string>, k: nat) returns (f: nat)
    requires k < |names|
    ensures var p := ParentPath(names, k);
      || p == []
      || (p == [0] && Dots(names[k]) > 0)
      || (f < |names| && p == PathOf(names, f) && Dots(names[f]) == Dots(names[k]) - 1)
  {
    hide Dots, LastDot, Lower, PathOf, ParentName;
    f := FirstLike(names, Lower(ParentName(names[k])));
    if Dots(names[k]) > 0 && f < |names| { ParentLevel(names[k], names[f]); }
  }

  lemma PathInParts(names: seq<string>, k: nat) returns (x: nat)
    requires k < |names|
    ensures PathOf(names, k) == ParentPath(names, k) + [x] && x <= |names|
  {
    hide Dots, ParentPath, Rank;
    x := Rank(names, k, k) + if Dots(names[k]) == 0 then 1 else 0;
  }

  /** A path has at most one index more than the name has dots, and no index beyond the number of types. */
  lemma {:induction false} PathTextBound(names: seq<string>, k: nat)
    requires k < |names|
    ensures PathOf(names, k) != []
    ensures |PathText(PathOf(names, k))| + 1 <= (Dots(names[k]) + 1) * (|NatText(|names|)| + 1)
    decreases Dots(names[k])
  {
    hide Dots, NatText, PathText, PathOf, ParentPath;
    var w, d, p := |NatText(|names|)|, Dots(names[k]), ParentPath(names, k);
    var x := PathInParts(names, k);
    DigitsGrow(x, |names|);
    var f := ParentPathCases(names, k);
    assert (d + 1) * (w + 1) == d * (w + 1) + (w + 1);
    if p == [] {
      OneNumber(x);
      assert [] + [x] == [x];
    } else {
      TextAppend(p, x);
      if p == [0] && d > 0 {
        OneNumber(0);
        NumberZero();
        ProductGrows(d, w);
      } else {
        PathTextBound(names, f);
      }
    }
  }

  lemma ProductGrows(d: nat, w: nat)
    requires d >= 1 && w >= 1
    ensures (d + 1) * (w + 1) >= 2 * (w + 1)
  {
  }

  /** Few digits and few dots always fit. */
  lemma ShallowNamesFit(names: seq<string>, k: nat)
    requires k < |names| && (Dots(names[k]) + 1) * (|NatText(|names|)| + 1) <= PATH_LENGTH
    ensures Fits(PathText(PathOf(names, k)))
  {
    hide Dots, PathOf, PathText;
    PathTextBound(names, k);
  }

  /** The thousand types that poi_type_list has room for: with at most two dots every hash entry leads to its row. */
  lemma TwoDotsFit(names: seq<string>, maxLevel: nat, k: nat)
    requires DistinctNames(names) && |names| <= 1000 && maxLevel <= 2
    requires forall i :: 0 <= i < |names| ==> Dots(names[i]) <= maxLevel
    requires k < |names| && PrefixesListed(names, names[k])
    ensures var st := Built(names, maxLevel);
      names[k] in st.index && LeadsTo(st.forest, KeptPath(st.index[names[k]]), k)
  {
    hide Built, PrefixesListed, Dots, PathOf, Fits, KeptPath, PathText, LeadsTo, NatText, DistinctNames;
    HashLeadsToRow(names, maxLevel, k);
    assert Pow10(4) == 10000 by { assert Pow10(2) == 100; assert Pow10(3) == 1000; }
    TextLength(|names|, 4);
    AtMostFifteen(Dots(names[k]), |NatText(|names|)|);
    ShallowNamesFit(names, k);
  }

  lemma AtMostFifteen(d: nat, w: nat)
    requires d <= 2 && w <= 4
    ensures (d + 1) * (w + 1) <= 15
  {
  }

  // ---------------------------------------------------------------- a list for which it fails

  /** "a", "a.a", "a.a.a", ... */
  function Nest(k: nat): string {
    if k == 0 then "a" else Nest(k - 1) + ".a"
  }

  lemma LastSegment(name: string, c: char)
    requires c != '.'
    ensures Dots(name + ['.', c]) == Dots(name) + 1 && ParentName(name + ['.', c]) == name
  {
    hide Dots, LastDot;
    var s := name + ['.', c];
    assert [c] == "" + [c];
    NoDots([c]);
    assert s == name + ("." + [c]);
    DotsConcat(name, "." + [c]);
    DotsConcat(".", [c]);
    OneDot();
    assert s[..|name| + 1] == name + ".";
    DotsConcat(name, ".");
    LastDotIs(s, |name|);
    assert s[..|name|] == name;
  }

  lemma {:induction false} NestFacts(k: nat)
    ensures Dots(Nest(k)) == k && |Nest(k)| == 2 * k + 1 && Lower(Nest(k)) == Nest(k) && Nest(k)[0] == 'a'
    ensures k > 0 ==> ParentName(Nest(k)) == Nest(k - 1)
  {
    hide Dots, LastDot, ParentName;
    if k == 0 {
      NoDots("a");
    } else {
      var shorter := Nest(k - 1);
      NestFacts(k - 1);
      LastSegment(shorter, 'a');
      assert shorter + ".a" == shorter + ['.', 'a'];
      assert forall i :: 0 <= i < |shorter| ==> Lower(shorter)[i] == LowerChar(shorter[i]);
    }
  }

  /** Eight names, each below the one before, and a second child of the seventh. */
  const DEEP: seq<string> := seq(8, k requires 0 <= k => Nest(k)) + [Nest(6) + ".b"]

  lemma DeepNames(k: nat)
    requires k < |DEEP|
    ensures DEEP[k] == (if k < 8 then Nest(k) else Nest(6) + ".b") && DEEP[k] != ""
    ensures Dots(DEEP[k]) == if k < 8 then k else 7
    ensures k > 0 ==> ParentName(DEEP[k]) == if k < 8 then Nest(k - 1) else Nest(6)
    ensures |DEEP[k]| == 2 * (if k < 8 then k else 7) + 1
  {
    hide Dots, LastDot, ParentName, Nest;
    if k < 8 {
      NestFacts(k);
    } else {
      NestFacts(6);
      LastSegment(Nest(6), 'b');
      assert Nest(6) + ".b" == Nest(6) + ['.', 'b'];
    }
  }

  lemma DeepIsDistinct()
    ensures DistinctNames(DEEP)
  {
    hide Dots, Nest, ParentName;
    forall i, j | 0 <= i < j < |DEEP| ensures DEEP[i] != DEEP[j] {
      DeepNames(i);
      DeepNames(j);
      if i == 7 && j == 8 { LastLetters(); }
    }
  }

  lemma LastLetters()
    ensures Nest(7) != Nest(6) + ".b"
  {
    assert Nest(7) == Nest(6) + ".a";
    assert (Nest(6) + ".a")[|Nest(6)| + 1] == 'a' && (Nest(6) + ".b")[|Nest(6)| + 1] == 'b';
  }

  /** Nobody but the eighth and ninth names are siblings. */
  lemma {:induction false} DeepRank(i: nat, k: nat)
    requires i <= k < |DEEP|
    ensures Rank(DEEP, i, k) == if i == 8 then 1 else 0
  {
    hide Dots, Nest, Lower, ParentName;
    if i > 0 {
      DeepRank(i - 1, k);
      DeepNames(i - 1);
      DeepNames(k);
    }
  }

  lemma DeepFirst(k: nat)
    requires k < 7
    ensures FirstLike(DEEP, Nest(k)) == k && Nest(k) != Lower(NO_FILTER)
  {
    hide Dots, Nest, LastDot, ParentName;
    var key := Nest(k);
    NestFacts(k);
    DeepNames(k);
    var f := FirstLike(DEEP, key);
    assert f <= k;
    DeepNames(f);
    assert |Lower(DEEP[f])| == |DEEP[f]|;
    assert key[0] == 'a' && Lower(NO_FILTER)[0] == '_';
  }

  lemma ParentPathIs(names: seq<string>, k: nat, f: nat)
    requires k < |names| && f < |names| && Dots(names[k]) > 0
    requires var key := Lower(ParentName(names[k])); key != Lower(NO_FILTER) && FirstLike(names, key) == f
    ensures ParentPath(names, k) == PathOf(names, f)
  {
    hide Dots, Lower, LastDot, FirstLike, PathOf;
  }

  lemma DeepParent(k: nat)
    requires 0 < k < |DEEP|
    ensures ParentPath(DEEP, k) == PathOf(DEEP, if k < 8 then k - 1 else 6)
  {
    hide Dots, Nest, PathOf, ParentPath, LastDot, Lower, FirstLike, ParentName;
    var parent := if k < 8 then k - 1 else 6;
    DeepNames(k);
    NestFacts(parent);
    DeepFirst(parent);
    ParentPathIs(DEEP, k, parent);
  }

  lemma {:induction false} DeepPath(k: nat)
    requires k < 8
    ensures var p := PathOf(DEEP, k);
      p != [] && |PathText(p)| == 2 * k + 1 && (k > 0 ==> p == PathOf(DEEP, k - 1) + [0])
  {
    hide Dots, Nest, Rank, ParentPath, PathText;
    DeepNames(k);
    DeepRank(k, k);
    if k == 0 {
      DeepTop();
      assert PathOf(DEEP, 0) == [1];
      OneNumber(1);
      DigitsOfOne();
    } else {
      DeepParent(k);
      DeepPath(k - 1);
      TextAppend(PathOf(DEEP, k - 1), 0);
      NumberZero();
    }
  }

  lemma DeepTop()
    ensures ParentPath(DEEP, 0) == []
  {
    hide Nest;
    DeepNames(0);
  }

  lemma DigitsOfOne()
    ensures |NatText(1)| == 1
  {
  }

  lemma {:induction false} DeepListed(k: nat)
    requires k < |DEEP|
    ensures PrefixesListed(DEEP, DEEP[k])
  {
    hide Dots, Nest, PrefixesListed, ParentName, Listed;
    DeepNames(k);
    if k == 0 {
      BaseHasPrefixes(DEEP, DEEP[0]);
    } else {
      var parent := if k < 8 then k - 1 else 6;
      DeepListed(parent);
      DeepNames(parent);
      OwnNameIsListed(DEEP, parent);
      PrefixesOfChild(DEEP, DEEP[k]);
    }
  }

  lemma OwnNameIsListed(names: seq<string>, k: nat)
    requires k < |names| && names[k] != ""
    ensures Listed(names, names[k])
  {
  }

  /** Nine types whose names nest seven dots deep: the hash entry of the last one leads to the row of another. */
  lemma DeepNameLeadsAstray()
    ensures DistinctNames(DEEP) && DEEP[8] in Built(DEEP, 7).index
    ensures var text := KeptPath(Built(DEEP, 7).index[DEEP[8]]);
      LeadsTo(Built(DEEP, 7).forest, text, 7) && !LeadsTo(Built(DEEP, 7).forest, text, 8)
  {
    hide Built, PrefixesListed, Dots, PathOf, Nest, LeadsTo, DistinctNames, PathText;
    DeepIsDistinct();
    forall i | 0 <= i < |DEEP| ensures Dots(DEEP[i]) <= 7 { DeepNames(i); }
    DeepListed(7);
    DeepListed(8);
    HashLeadsToRow(DEEP, 7, 7);
    HashLeadsToRow(DEEP, 7, 8);
    DeepTexts();
  }

  lemma DeepTexts()
    ensures KeptPath(PathOf(DEEP, 7)) == KeptPath(PathOf(DEEP, 8))
    ensures Fits(PathText(PathOf(DEEP, 7))) && !Fits(PathText(PathOf(DEEP, 8)))
  {
    hide Dots, Nest, PathText, Rank, ParentPath;
    var p := PathOf(DEEP, 6);
    DeepPath(6);
    DeepPath(7);
    DeepNames(8);
    DeepRank(8, 8);
    DeepParent(8);
    TextAppend(p, 0);
    TextAppend(p, 1);
    NumberZero();
    OneText();
    var t := PathText(p);
    var zero, one := t + (":" + "0"), t + (":" + "1");
    assert zero[..14] == t + ":" == one[..14];
    assert zero[13..] == ":0";
    assert one[13..][1] == one[14] == '1';
    assert PathText(PathOf(DEEP, 8)) == one;
    assert !(one[13..] == ":0");
  }

  lemma OneText()
    ensures NatText(1) == "1"
  {
  }
}
