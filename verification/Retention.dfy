/** Which backups of a profile are kept: the order on backup files, the `keep` newest
    of a set of files, and `findToDelete`, which lists the others oldest first. */
module Retention {
  import opened Text
  import opened BackupName
  import opened StableSort

  // ---------- the age order ----------

  /** Older first; a tie in the parsed time is broken by the name, as a sorted listing does. */
  predicate Before(a: string, b: string) {
    TimeOf(a) < TimeOf(b) || (TimeOf(a) == TimeOf(b) && NameLess(a, b))
  }

  lemma BeforeTotal(a: string, b: string)
    ensures !(Before(a, b) && Before(b, a))
    ensures a == b <==> !Before(a, b) && !Before(b, a)
  {
    NameLessTotal(a, b);
  }

  lemma BeforeTransitive(a: string, b: string, c: string)
    requires Before(a, b) && Before(b, c)
    ensures Before(a, c)
  {
    if TimeOf(a) == TimeOf(b) == TimeOf(c) {
      NameLessTransitive(a, b, c);
    }
  }

  // ---------- the newest files of a set ----------

  ghost function Newer(x: string, files: set<string>): set<string> {
    set y | y in files && Before(x, y)
  }

  /** The files that fewer than `keep` others are newer than. */
  ghost function Newest(keep: int, files: set<string>): set<string> {
    set x | x in files && |Newer(x, files)| < keep
  }

  lemma SubsetSize(a: set<string>, b: set<string>)
    requires a <= b
    ensures |a| <= |b|
    ensures a != b ==> |a| < |b|
  {
    assert b == a + (b - a);
    if a != b {
      assert b - a != {};
    }
  }

  lemma NewerShrinks(x: string, y: string, files: set<string>)
    requires y in files && Before(x, y)
    ensures |Newer(y, files)| < |Newer(x, files)|
  {
    forall z | z in Newer(y, files)
      ensures z in Newer(x, files)
    {
      BeforeTransitive(x, y, z);
    }
    BeforeTotal(y, y);
    assert y in Newer(x, files) && y !in Newer(y, files);
    SubsetSize(Newer(y, files), Newer(x, files));
  }

  /** Removing a file keeps every remaining file among the newest that was. */
  lemma NewestMonotone(keep: int, part: set<string>, files: set<string>, x: string)
    requires part <= files
    requires x in Newest(keep, files) && x in part
    ensures x in Newest(keep, part)
  {
    SubsetSize(Newer(x, part), Newer(x, files));
  }

  ghost predicate IsOldest(m: string, files: set<string>) {
    m in files && forall y :: y in files && y != m ==> Before(m, y)
  }

  lemma {:induction false} OldestExists(files: set<string>)
    requires files != {}
    ensures exists m :: IsOldest(m, files)
  {
    var x :| x in files;
    if files == {x} {
      assert IsOldest(x, files);
    } else {
      OldestExists(files - {x});
      var m :| IsOldest(m, files - {x});
      BeforeTotal(x, m);
      if Before(m, x) {
        assert IsOldest(m, files);
      } else {
        forall y | y in files && y != x
          ensures Before(x, y)
        {
          if y != m {
            BeforeTransitive(x, m, y);
          }
        }
        assert IsOldest(x, files);
      }
    }
  }

  ghost function OldestOf(files: set<string>): (m: string)
    requires files != {}
    ensures IsOldest(m, files)
  {
    OldestExists(files);
    var m :| IsOldest(m, files);
    m
  }

  lemma OldestOfNewest(keep: int, files: set<string>, m: string)
    requires IsOldest(m, files)
    ensures Newest(keep, files) == Newest(keep, files - {m}) + (if |files| <= keep then {m} else {})
  {
    var rest := files - {m};
    BeforeTotal(m, m);
    assert Newer(m, files) == rest;
    forall x | x in rest
      ensures Newer(x, files) == Newer(x, rest)
    {
      BeforeTotal(m, x);
    }
  }

  /** There are exactly `keep` of them, or all files when there are fewer. */
  lemma {:induction false} NewestSize(keep: nat, files: set<string>)
    ensures |Newest(keep, files)| == if |files| <= keep then |files| else keep
    decreases |files|
  {
    if files != {} {
      var m := OldestOf(files);
      NewestSize(keep, files - {m});
      OldestOfNewest(keep, files, m);
    }
  }

  /** Every kept file is newer than every other file. */
  lemma NewestAboveRest(keep: int, files: set<string>, x: string, y: string)
    requires x in files && x !in Newest(keep, files)
    requires y in Newest(keep, files)
    ensures Before(x, y)
  {
    BeforeTotal(x, y);
    if Before(y, x) {
      NewerShrinks(y, x, files);
    }
  }

  /** The sandwich: any set between the newest of `files` and `files` has the same newest. */
  lemma NewestSandwich(keep: int, part: set<string>, files: set<string>)
    requires Newest(keep, files) <= part <= files
    ensures Newest(keep, part) == Newest(keep, files)
  {
    forall x | x in Newest(keep, files)
      ensures x in Newest(keep, part)
    {
      NewestMonotone(keep, part, files, x);
    }
    forall x | x in Newest(keep, part)
      ensures x in Newest(keep, files)
    {
      if x !in Newest(keep, files) {
        forall y | y in Newest(keep, files)
          ensures y in Newer(x, part)
        {
          NewestAboveRest(keep, files, x, y);
        }
        SubsetSize(Newest(keep, files), Newer(x, part));
        SubsetSize(Newer(x, files), files);
        NewestSize(if keep < 0 then 0 else keep, files);
      }
    }
  }

  /** The newest of a union are among the newest of its parts. */
  lemma NewestOfUnion(keep: int, a: set<string>, b: set<string>)
    ensures Newest(keep, a + b) <= Newest(keep, a) + Newest(keep, b)
  {
    forall x | x in Newest(keep, a + b)
      ensures x in Newest(keep, a) + Newest(keep, b)
    {
      if x in a {
        NewestMonotone(keep, a, a + b, x);
      } else {
        NewestMonotone(keep, b, a + b, x);
      }
    }
  }

  // ---------- age-ordered sequences ----------

  ghost function Elements(s: seq<string>): set<string> {
    set x | x in s
  }

  ghost predicate Increasing(s: seq<string>) {
    forall i, j :: 0 <= i < j < |s| ==> Before(s[i], s[j])
  }

  /** The files of a set, oldest first. */
  ghost function Ascending(files: set<string>): seq<string>
    decreases |files|
  {
    if files == {} then [] else [OldestOf(files)] + Ascending(files - {OldestOf(files)})
  }

  lemma OldestInFront(m: string, rest: seq<string>)
    requires Increasing(rest) && forall x :: x in Elements(rest) ==> Before(m, x)
    ensures Increasing([m] + rest) && Elements([m] + rest) == {m} + Elements(rest)
  {
  }

  lemma {:induction false} AscendingSpec(files: set<string>)
    ensures |Ascending(files)| == |files|
    ensures Elements(Ascending(files)) == files
    ensures Increasing(Ascending(files))
    decreases |files|
  {
    if files != {} {
      var m := OldestOf(files);
      AscendingSpec(files - {m});
      OldestInFront(m, Ascending(files - {m}));
    }
  }

  lemma FirstIsOldest(s: seq<string>, t: seq<string>)
    requires Increasing(s) && Increasing(t) && Elements(s) == Elements(t)
    requires s != [] && t != []
    ensures s[0] == t[0]
  {
    assert s[0] in Elements(t) && t[0] in Elements(s);
    BeforeTotal(s[0], t[0]);
  }

  lemma TailElements(s: seq<string>)
    requires s != [] && Increasing(s)
    ensures Elements(s[1..]) == Elements(s) - {s[0]} && Increasing(s[1..])
  {
    BeforeTotal(s[0], s[0]);
    forall x | x in Elements(s) - {s[0]}
      ensures x in s[1..]
    {
      var i :| 0 <= i < |s| && s[i] == x;
      assert s[1..][i - 1] == x;
    }
  }

  /** A set of files has one age-ordered listing. */
  lemma {:induction false} IncreasingUnique(s: seq<string>, t: seq<string>)
    requires Increasing(s) && Increasing(t) && Elements(s) == Elements(t)
    ensures s == t
  {
    assert s != [] ==> s[0] in Elements(t);
    assert t != [] ==> t[0] in Elements(s);
    if s != [] && t != [] {
      FirstIsOldest(s, t);
      TailElements(s);
      TailElements(t);
      IncreasingUnique(s[1..], t[1..]);
    }
  }

  lemma IncreasingSize(s: seq<string>)
    requires Increasing(s)
    ensures |Elements(s)| == |s|
  {
    AscendingSpec(Elements(s));
    IncreasingUnique(s, Ascending(Elements(s)));
  }

  /** In an age-ordered listing, the files after position `i` are exactly the newer ones. */
  lemma NewerInIncreasing(s: seq<string>, i: nat)
    requires Increasing(s) && i < |s|
    ensures |Newer(s[i], Elements(s))| == |s| - 1 - i
  {
    var after := s[i + 1..];
    forall y | y in Newer(s[i], Elements(s))
      ensures y in Elements(after)
    {
      var j :| 0 <= j < |s| && s[j] == y;
      BeforeTotal(s[i], s[j]);
      assert j > i;
      assert after[j - i - 1] == y;
    }
    assert Elements(after) == Newer(s[i], Elements(s));
    assert Increasing(after);
    IncreasingSize(after);
  }

  /** The oldest files, all but `keep`, in age order. */
  ghost function Surplus(files: set<string>, keep: int): seq<string> {
    var n := |Ascending(files)| - keep;
    if keep <= 0 || n < 0 then [] else Ascending(files)[..n]
  }

  /** Cutting the listing `keep` from its end separates the newest from the rest. */
  lemma CutIsNewest(files: set<string>, keep: int, i: nat)
    requires i < |Ascending(files)|
    ensures Ascending(files)[i] in Newest(keep, files) <==> i >= |Ascending(files)| - keep
  {
    AscendingSpec(files);
    NewerInIncreasing(Ascending(files), i);
    assert Ascending(files)[i] in Elements(Ascending(files));
  }

  lemma SurplusSpec(files: set<string>, keep: int)
    requires keep > 0
    ensures Elements(Surplus(files, keep)) == files - Newest(keep, files)
    ensures Increasing(Surplus(files, keep))
    ensures |Surplus(files, keep)| == if |files| <= keep then 0 else |files| - keep
  {
    AscendingSpec(files);
    var all, cut := Ascending(files), Surplus(files, keep);
    forall x | x in files - Newest(keep, files)
      ensures x in cut
    {
      assert x in Elements(all);
      var i :| 0 <= i < |all| && all[i] == x;
      CutIsNewest(files, keep, i);
      assert cut[i] == x;
    }
    forall x | x in cut
      ensures x in files - Newest(keep, files)
    {
      var i :| 0 <= i < |cut| && cut[i] == x;
      assert all[i] == x && x in Elements(all);
      CutIsNewest(files, keep, i);
    }
  }

  // ---------- findToDelete ----------

  function Matching(files: seq<string>, name: ProfileName): (found: seq<string>)
    ensures forall x :: x in found <==> x in files && Matches(name, x)
  {
    if files == [] then []
    else
      var found := Matching(files[..|files| - 1], name);
      var f := files[|files| - 1];
      if Matches(name, f) then found + [f] else found
  }

  /** The matches are all matching files of the listing, in its order. */
  lemma {:induction false} MatchingInOrder(files: seq<string>, name: ProfileName) returns (at: seq<nat>)
    ensures PicksInOrder(files, f => Matches(name, f), Matching(files, name), at)
  {
    at := [];
    if files != [] {
      at := MatchingInOrder(files[..|files| - 1], name);
      PickLast(files, f => Matches(name, f), Matching(files[..|files| - 1], name), at);
      if Matches(name, files[|files| - 1]) {
        at := at + [|files| - 1];
      }
    }
  }

  function OldestFirst(found: seq<string>): seq<string> {
    SortBy(TimeOf, found)
  }

  /** The files `findToDelete` returns when it returns no error. */
  function ToDelete(files: seq<string>, name: ProfileName, keep: int): seq<string>
  {
    var found := Matching(files, name);
    if keep <= 0 || |OldestFirst(found)| < keep then [] else OldestFirst(found)[..|OldestFirst(found)| - keep]
  }

  /** The loop that filters a listing by the profile's pattern. */
  method KeepMatching(files: seq<string>, name: ProfileName) returns (found: seq<string>)
    ensures found == Matching(files, name)
  {
    found := [];
    for i := 0 to |files|
      invariant found == Matching(files[..i], name)
    {
      assert files[..i + 1][..i] == files[..i];
      if Matches(name, files[i]) {
        found := found + [files[i]];
      }
    }
    assert files[..|files|] == files;
  }

  method FindToDelete(files: seq<string>, name: ProfileName, n: int) returns (r: Result<seq<string>, string>)
    ensures n <= 0 ==> r == Ok([])
    ensures n > 0 && name == "" ==> r.Err?
    ensures n > 0 && name != "" ==> r == Ok(ToDelete(files, name, n))
  {
    if n <= 0 {
      return Ok([]);
    }
    if name == "" {
      return Err("profile name cannot be empty");
    }
    var found := KeepMatching(files, name);
    SortSize(TimeOf, found);
    if |found| == 0 {
      return Ok(found);
    }
    var a := new string[|found|](i requires 0 <= i < |found| => found[i]);
    assert a[..] == found;
    SortInPlace(TimeOf, a);
    var keep := if |found| <= n then |found| else n;
    r := Ok(a[..|found| - keep]);
  }

  // ---------- which files findToDelete picks ----------

  /** Rank: the file at filtered position `i` is returned exactly when at least `keep` matching
      files have a higher (time, position) key; the returned files come in increasing key order
      and there are max(0, matches - keep) of them. */
  lemma DeletedByRank(files: seq<string>, name: ProfileName, keep: int) returns (order: seq<int>)
    requires keep > 0
    ensures var found := Matching(files, name);
            && KeyOrder(TimeOf, found, order)
            && |ToDelete(files, name, keep)| == (if |found| <= keep then 0 else |found| - keep)
            && Picks(found, order, ToDelete(files, name, keep))
            && forall k :: 0 <= k < |found| ==>
                 (k < |ToDelete(files, name, keep)| <==> |Higher(TimeOf, found, order[k])| >= keep)
  {
    var found := Matching(files, name);
    order := SortedByKey(TimeOf, found);
    forall k | 0 <= k < |found|
      ensures k < |ToDelete(files, name, keep)| <==> |Higher(TimeOf, found, order[k])| >= keep
    {
      HigherCount(TimeOf, found, order, k);
    }
  }

  // ---------- from sequences to sets ----------

  /** Files with equal times appear in name order: true of any sorted listing. */
  ghost predicate TiesByName(found: seq<string>) {
    forall i, j :: 0 <= i < j < |found| && TimeOf(found[i]) == TimeOf(found[j]) ==> NameLess(found[i], found[j])
  }

  lemma SortedListing(found: seq<string>)
    requires TiesByName(found)
    ensures OldestFirst(found) == Ascending(Elements(found))
  {
    var order := SortedByKey(TimeOf, found);
    var sorted := OldestFirst(found);
    forall k, l | 0 <= k < l < |sorted|
      ensures Before(sorted[k], sorted[l])
    {
      assert KeyLess(TimeOf, found, order[k], order[l]);
    }
    SortKeepsElements(TimeOf, found);
    assert Elements(sorted) == Elements(found);
    AscendingSpec(Elements(found));
    IncreasingUnique(sorted, Ascending(Elements(found)));
  }

  /** On a listing whose ties are in name order, `findToDelete` returns the surplus of the set
      of matching files. */
  lemma ToDeleteIsSurplus(files: seq<string>, name: ProfileName, keep: int)
    requires TiesByName(Matching(files, name))
    ensures ToDelete(files, name, keep) == Surplus(Elements(Matching(files, name)), keep)
  {
    SortedListing(Matching(files, name));
  }

  ghost predicate Distinct(s: seq<string>) {
    forall i, j :: 0 <= i < j < |s| ==> s[i] != s[j]
  }

  ghost predicate RealDates(found: seq<string>) {
    forall i :: 0 <= i < |found| ==> Stamped(found[i]) && ExtractTime(found[i]).Some?
  }

  lemma RealDatesHaveNoTies(found: seq<string>, name: ProfileName)
    requires Distinct(found) && RealDates(found)
    requires forall x :: x in found ==> Matches(name, x)
    ensures TiesByName(found)
  {
    forall i, j | 0 <= i < j < |found| && TimeOf(found[i]) == TimeOf(found[j])
      ensures false
    {
      SameTimeSameFile(name, found[i], found[j]);
    }
  }

  /** Filtering keeps how often a matching name is listed, and drops the others. */
  lemma {:induction false} MatchingCount(files: seq<string>, name: ProfileName, x: string)
    ensures multiset(Matching(files, name))[x] == if Matches(name, x) then multiset(files)[x] else 0
  {
    if files != [] {
      var front, last := files[..|files| - 1], files[|files| - 1];
      MatchingCount(front, name, x);
      assert files == front + [last];
    }
  }

  lemma {:induction false} DistinctCount(s: seq<string>)
    ensures Distinct(s) <==> forall x :: multiset(s)[x] <= 1
  {
    if s != [] {
      var front, last := s[..|s| - 1], s[|s| - 1];
      DistinctCount(front);
      assert s == front + [last];
      assert last in front <==> multiset(front)[last] > 0;
      if Distinct(front) && last in front {
        assert multiset(s)[last] == 2;
        var i :| 0 <= i < |front| && front[i] == last;
        assert s[i] == s[|s| - 1];
      }
      if !Distinct(front) {
        var x :| multiset(front)[x] > 1;
        assert multiset(s)[x] > 1;
        var i, j :| 0 <= i < j < |front| && front[i] == front[j];
        assert s[i] == s[j];
      }
    }
  }

  /** A permuted listing has the same matches, permuted. */
  lemma MatchingPermuted(files: seq<string>, shuffled: seq<string>, name: ProfileName)
    requires multiset(files) == multiset(shuffled)
    ensures multiset(Matching(files, name)) == multiset(Matching(shuffled, name))
  {
    forall x
      ensures multiset(Matching(files, name))[x] == multiset(Matching(shuffled, name))[x]
    {
      MatchingCount(files, name, x);
      MatchingCount(shuffled, name, x);
    }
  }

  /** The order of the listing does not matter when the matching names are distinct and carry
      real dates. */
  lemma ListingOrderIrrelevant(files: seq<string>, shuffled: seq<string>, name: ProfileName, keep: int)
    requires multiset(files) == multiset(shuffled)
    requires Distinct(Matching(files, name)) && RealDates(Matching(files, name))
    ensures ToDelete(shuffled, name, keep) == ToDelete(files, name, keep)
  {
    var a, b := Matching(files, name), Matching(shuffled, name);
    MatchingPermuted(files, shuffled, name);
    DistinctCount(a);
    DistinctCount(b);
    forall x
      ensures x in a <==> x in b
    {
      assert x in multiset(a) <==> x in multiset(b);
    }
    forall i | 0 <= i < |b|
      ensures Stamped(b[i]) && ExtractTime(b[i]).Some?
    {
      assert b[i] in a;
    }
    RealDatesHaveNoTies(a, name);
    RealDatesHaveNoTies(b, name);
    assert Elements(a) == Elements(b);
    ToDeleteIsSurplus(files, name, keep);
    ToDeleteIsSurplus(shuffled, name, keep);
  }
}
