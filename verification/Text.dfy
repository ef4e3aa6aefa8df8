/** Outcomes of operations that may fail, and the few string operations of Go's
    `strings` and `path/filepath` packages that the modelled code relies on. */
module Text {

  datatype Option<+T> = None | Some(value: T) {
    function GetOr(default: T): T {
      if Some? then value else default
    }
  }

  datatype Result<+T, +E> = Ok(value: T) | Err(error: E)

  // ---------- strings.Split and strings.Join on a one-character separator ----------

  function Split(s: string, sep: char): (parts: seq<string>)
    ensures |parts| >= 1
  {
    if s == "" then [""]
    else
      var rest := Split(s[1..], sep);
      if s[0] == sep then [""] + rest
      else [[s[0]] + rest[0]] + rest[1..]
  }

  function Join(parts: seq<string>, sep: char): string {
    if parts == [] then ""
    else if |parts| == 1 then parts[0]
    else parts[0] + [sep] + Join(parts[1..], sep)
  }

  lemma {:induction false} SplitAtom(s: string, sep: char)
    requires sep !in s
    ensures Split(s, sep) == [s]
  {
    if s != "" {
      SplitAtom(s[1..], sep);
      assert [s[0]] + s[1..] == s;
    }
  }

  lemma ExtendFirst(c: char, parts: seq<string>, more: seq<string>)
    requires parts != []
    ensures [[c] + (parts + more)[0]] + (parts + more)[1..] == ([[c] + parts[0]] + parts[1..]) + more
  {
  }

  lemma Associative(x: seq<string>, y: seq<string>, z: seq<string>)
    ensures (x + y) + z == x + (y + z)
  {
  }

  lemma {:induction false} SplitBefore(a: string, t: string, sep: char)
    requires t != "" && t[0] == sep
    ensures Split(a + t, sep) == Split(a, sep) + Split(t[1..], sep)
  {
    var s, more := a + t, Split(t[1..], sep);
    if a == "" {
      assert s == t;
    } else {
      var parts := Split(a[1..], sep);
      assert s[0] == a[0] && s[1..] == a[1..] + t;
      SplitBefore(a[1..], t, sep);
      if a[0] == sep {
        assert Split(s, sep) == [""] + (parts + more);
        Associative([""], parts, more);
      } else {
        assert Split(s, sep) == [[a[0]] + (parts + more)[0]] + (parts + more)[1..];
        ExtendFirst(a[0], parts, more);
      }
    }
  }

  /** Splitting distributes over a separator. */
  lemma SplitConcat(a: string, b: string, sep: char)
    ensures Split(a + [sep] + b, sep) == Split(a, sep) + Split(b, sep)
  {
    SplitBefore(a, [sep] + b, sep);
    assert a + [sep] + b == a + ([sep] + b);
    assert ([sep] + b)[1..] == b;
  }

  /** Joining undoes splitting. */
  lemma {:induction false} JoinSplit(s: string, sep: char)
    ensures Join(Split(s, sep), sep) == s
  {
    if s != "" {
      var rest := Split(s[1..], sep);
      JoinSplit(s[1..], sep);
      if s[0] == sep {
        assert ([""] + rest)[1..] == rest;
        assert [s[0]] + s[1..] == s;
      } else {
        var parts := [[s[0]] + rest[0]] + rest[1..];
        assert parts[1..] == rest[1..];
        assert [s[0]] + s[1..] == s;
      }
    }
  }

  /** Splitting undoes joining when no part holds the separator. */
  lemma {:induction false} SplitJoin(parts: seq<string>, sep: char)
    requires parts != []
    requires forall p :: p in parts ==> sep !in p
    ensures Split(Join(parts, sep), sep) == parts
  {
    SplitAtom(parts[0], sep);
    if |parts| > 1 {
      SplitJoin(parts[1..], sep);
      SplitConcat(parts[0], Join(parts[1..], sep), sep);
    }
  }

  // ---------- the order of file names in a sorted directory listing ----------

  /** Strict lexicographic order on code points (the order Go gives UTF-8 strings). */
  predicate NameLess(a: string, b: string) {
    b != "" && (a == "" || a[0] < b[0] || (a[0] == b[0] && NameLess(a[1..], b[1..])))
  }

  lemma {:induction false} NameLessTotal(a: string, b: string)
    ensures !(NameLess(a, b) && NameLess(b, a))
    ensures a == b <==> !NameLess(a, b) && !NameLess(b, a)
  {
    if a != "" && b != "" {
      NameLessTotal(a[1..], b[1..]);
      if a[0] == b[0] {
        assert a == [a[0]] + a[1..] && b == [b[0]] + b[1..];
      }
    }
  }

  lemma {:induction false} NameLessTransitive(a: string, b: string, c: string)
    requires NameLess(a, b) && NameLess(b, c)
    ensures NameLess(a, c)
  {
    if a != "" && a[0] == b[0] == c[0] {
      NameLessTransitive(a[1..], b[1..], c[1..]);
    }
  }

  predicate HasSuffix(s: string, suffix: string) {
    |suffix| <= |s| && s[|s| - |suffix|..] == suffix
  }

  lemma SuffixIsEnd(s: string, suffix: string)
    ensures HasSuffix(s, suffix) <==> exists front :: s == front + suffix
  {
    if HasSuffix(s, suffix) {
      assert s == s[..|s| - |suffix|] + suffix;
    }
  }

  // ---------- picking elements out of a list ----------

  /** `at` are the positions, in order, of all elements of `s` that `keep` accepts, and `out` is what
      stands there. */
  ghost predicate PicksInOrder<T(!new)>(s: seq<T>, keep: T -> bool, out: seq<T>, at: seq<nat>) {
    && |at| == |out|
    && (forall j, k :: 0 <= j < k < |at| ==> at[j] < at[k])
    && (forall j :: 0 <= j < |at| ==> at[j] < |s| && out[j] == s[at[j]] && keep(out[j]))
    && (forall i: nat :: i < |s| && keep(s[i]) ==> i in at)
  }

  lemma PickLast<T(!new)>(s: seq<T>, keep: T -> bool, out: seq<T>, at: seq<nat>)
    requires s != [] && PicksInOrder(s[..|s| - 1], keep, out, at)
    ensures var last := s[|s| - 1];
            if keep(last) then PicksInOrder(s, keep, out + [last], at + [|s| - 1]) else PicksInOrder(s, keep, out, at)
  {
    var n := |s| - 1;
    assert forall i: nat :: i < n ==> s[..n][i] == s[i];
    var at' := at + [n];
    assert forall i :: i in at ==> i in at';
    assert at'[|at|] == n;
  }

  lemma SamePicks<T(!new)>(s: seq<T>, p: T -> bool, q: T -> bool, out: seq<T>, at: seq<nat>)
    requires PicksInOrder(s, p, out, at) && forall x :: p(x) == q(x)
    ensures PicksInOrder(s, q, out, at)
  {
  }

  function Both<T>(p: T -> bool, q: T -> bool): T -> bool {
    x => p(x) && q(x)
  }

  /** Picking twice is picking what both accept. */
  lemma PickTwice<T(!new)>(s: seq<T>, first: T -> bool, mid: seq<T>, at: seq<nat>, second: T -> bool,
                           out: seq<T>, among: seq<nat>)
    returns (both: seq<nat>)
    requires PicksInOrder(s, first, mid, at) && PicksInOrder(mid, second, out, among)
    ensures PicksInOrder(s, Both(first, second), out, both)
  {
    both := seq(|among|, j requires 0 <= j < |among| => at[among[j]]);
    forall i: nat | i < |s| && first(s[i]) && second(s[i])
      ensures i in both
    {
      assert i in at;
      var j :| 0 <= j < |at| && at[j] == i;
      assert j in among;
      var k :| 0 <= k < |among| && among[k] == j;
      assert both[k] == i;
    }
  }
}
