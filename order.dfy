/** Go's string ordering and `sort.Strings`. Go compares strings byte by byte;
    on the code points of valid UTF-8 text that is the lexicographic order of
    the code points, which is what `LessEq` is. */
module Order {

  /** `a` sorts at or before `b`. */
  predicate LessEq(a: string, b: string)
    decreases |a|
  {
    |a| == 0 || (|b| > 0 && (a[0] < b[0] || (a[0] == b[0] && LessEq(a[1..], b[1..]))))
  }

  predicate Less(a: string, b: string) {
    LessEq(a, b) && a != b
  }

  lemma {:induction false} LessEqTotal(a: string, b: string)
    ensures LessEq(a, b) || LessEq(b, a)
    decreases |a|
  {
    if |a| > 0 && |b| > 0 && a[0] == b[0] {
      LessEqTotal(a[1..], b[1..]);
    }
  }

  lemma {:induction false} LessEqAntisymmetric(a: string, b: string)
    requires LessEq(a, b) && LessEq(b, a)
    ensures a == b
    decreases |a|
  {
    if |a| > 0 {
      LessEqAntisymmetric(a[1..], b[1..]);
      assert a == [a[0]] + a[1..];
      assert b == [b[0]] + b[1..];
    }
  }

  lemma {:induction false} LessEqTransitive(a: string, b: string, c: string)
    requires LessEq(a, b) && LessEq(b, c)
    ensures LessEq(a, c)
    decreases |a|
  {
    if |a| > 0 && a[0] == b[0] && b[0] == c[0] {
      LessEqTransitive(a[1..], b[1..], c[1..]);
    }
  }

  /** Every pair of elements is in order. */
  predicate Sorted(s: seq<string>) {
    forall i, j :: 0 <= i < j < |s| ==> LessEq(s[i], s[j])
  }

  /** Every pair of elements is in order and distinct. */
  predicate StrictlySorted(s: seq<string>) {
    forall i, j :: 0 <= i < j < |s| ==> Less(s[i], s[j])
  }

  /** The set of elements of a sequence. */
  function Elems<T(==)>(s: seq<T>): set<T> {
    set x | x in s
  }

  predicate NoDuplicates<T(==)>(s: seq<T>) {
    forall i, j :: 0 <= i < j < |s| ==> s[i] != s[j]
  }

  /** Inserts `x` before the first element it does not sort after. */
  function Insert(x: string, s: seq<string>): (r: seq<string>)
    ensures multiset(r) == multiset(s) + multiset{x}
    ensures |r| == |s| + 1
    ensures r[0] == x || (|s| > 0 && r[0] == s[0])
    decreases |s|
  {
    if |s| == 0 then [x]
    else if LessEq(x, s[0]) then [x] + s
    else
      assert s == [s[0]] + s[1..];
      [s[0]] + Insert(x, s[1..])
  }

  lemma {:induction false} InsertSorted(x: string, s: seq<string>)
    requires Sorted(s)
    ensures Sorted(Insert(x, s))
    decreases |s|
  {
    if |s| == 0 {
    } else if LessEq(x, s[0]) {
      forall j | 0 < j < |s| ensures LessEq(x, s[j]) {
        LessEqTransitive(x, s[0], s[j]);
      }
      ConsSorted(x, s);
    } else {
      LessEqTotal(x, s[0]);
      var t := Insert(x, s[1..]);
      InsertSorted(x, s[1..]);
      forall j | 0 <= j < |t| ensures LessEq(s[0], t[j]) {
        InsertMember(x, s[1..], t[j]);
        if t[j] != x {
          var k :| 0 <= k < |s[1..]| && s[1..][k] == t[j];
          assert s[k + 1] == t[j];
        }
      }
      ConsSorted(s[0], t);
    }
  }

  /** An element of an insertion is the inserted one or an old one. */
  lemma InsertMember(x: string, s: seq<string>, z: string)
    requires z in Insert(x, s)
    ensures z == x || z in s
  {
    assert z in multiset(Insert(x, s));
  }

  /** A sorted sequence stays sorted behind an element at or before all of it. */
  lemma ConsSorted(y: string, s: seq<string>)
    requires Sorted(s) && forall j :: 0 <= j < |s| ==> LessEq(y, s[j])
    ensures Sorted([y] + s)
  {
    var r := [y] + s;
    forall i, j | 0 <= i < j < |r| ensures LessEq(r[i], r[j]) {
      assert r[j] == s[j - 1];
      if i > 0 {
        assert r[i] == s[i - 1];
      }
    }
  }

  lemma {:induction false} InsertNoDuplicates(x: string, s: seq<string>)
    requires NoDuplicates(s) && x !in s
    ensures NoDuplicates(Insert(x, s))
    decreases |s|
  {
    if |s| > 0 && !LessEq(x, s[0]) {
      var t := Insert(x, s[1..]);
      InsertNoDuplicates(x, s[1..]);
      assert s[0] !in s[1..];
      assert s[0] !in multiset(t);
    }
  }

  /** sort.Strings, as a function: insertion sort. The result is sorted, a
      permutation of the input, and free of duplicates when the input is. */
  function SortStrings(s: seq<string>): (r: seq<string>)
    ensures Sorted(r)
    ensures multiset(r) == multiset(s)
    ensures NoDuplicates(s) ==> NoDuplicates(r)
    decreases |s|
  {
    if |s| == 0 then []
    else
      var rest := SortStrings(s[1..]);
      InsertSorted(s[0], rest);
      assert s == [s[0]] + s[1..];
      if NoDuplicates(s) then
        HeadNotInRest(s, rest);
        InsertNoDuplicates(s[0], rest);
        Insert(s[0], rest)
      else Insert(s[0], rest)
  }

  /** In a sequence without duplicates, the head is not among the rest, nor in
      any permutation of it. */
  lemma HeadNotInRest(s: seq<string>, rest: seq<string>)
    requires |s| > 0 && NoDuplicates(s) && multiset(rest) == multiset(s[1..])
    ensures s[0] !in rest
  {
    assert s[0] !in s[1..];
    assert s[0] !in multiset(rest);
  }

  lemma SortedDistinctIsStrict(s: seq<string>)
    requires Sorted(s) && NoDuplicates(s)
    ensures StrictlySorted(s)
  {
  }

  lemma ElemsOfNonEmpty<T>(s: seq<T>)
    ensures |s| > 0 ==> s[0] in Elems(s)
  {
  }

  /** A sequence without duplicates holding just `x` is [x]. */
  lemma OnlyElement(s: seq<string>, x: string)
    requires NoDuplicates(s) && Elems(s) == {x}
    ensures s == [x]
  {
    assert x in Elems(s);
    assert s[0] in Elems(s) && s[|s| - 1] in Elems(s);
  }

  /** There is exactly one strictly sorted sequence holding a given set. */
  lemma {:induction false} StrictlySortedUnique(a: seq<string>, b: seq<string>)
    requires StrictlySorted(a) && StrictlySorted(b)
    requires Elems(a) == Elems(b)
    ensures a == b
    decreases |a|
  {
    if |a| == 0 {
      ElemsOfNonEmpty(b);
    } else {
      assert a[0] in Elems(b);
      assert b != [];
      assert b[0] in Elems(a);
      var i :| 0 <= i < |a| && a[i] == b[0];
      var j :| 0 <= j < |b| && b[j] == a[0];
      if a[0] != b[0] {
        assert i > 0 && j > 0;
        assert Less(a[0], a[i]) && Less(b[0], b[j]);
        LessEqAntisymmetric(a[0], b[0]);
      }
      var a', b' := a[1..], b[1..];
      forall x | x in a' ensures x in b' {
        var k :| 0 <= k < |a'| && a'[k] == x;
        assert x != a[0] by { assert Less(a[0], a[k + 1]); }
        assert x in Elems(b);
      }
      forall x | x in b' ensures x in a' {
        var k :| 0 <= k < |b'| && b'[k] == x;
        assert x != b[0] by { assert Less(b[0], b[k + 1]); }
        assert x in Elems(a);
      }
      assert Elems(a') == Elems(b');
      StrictlySortedUnique(a', b');
      assert a == [a[0]] + a' && b == [b[0]] + b';
    }
  }

  /** An enumeration of a finite set, in no particular order. */
  lemma {:induction false} EnumerationExists(s: set<string>)
    ensures exists e: seq<string> :: NoDuplicates(e) && Elems(e) == s
    decreases |s|
  {
    if s == {} {
      assert NoDuplicates<string>([]) && Elems<string>([]) == s;
    } else {
      var y :| y in s;
      EnumerationExists(s - {y});
      var e: seq<string> :| NoDuplicates(e) && Elems(e) == s - {y};
      assert y !in e by { assert y !in Elems(e); }
      var e' := [y] + e;
      forall x ensures x in Elems(e') <==> x in s {
        assert x in e' <==> x == y || x in e;
        assert x in e <==> x in Elems(e);
      }
      assert Elems(e') == s;
      assert NoDuplicates(e');
    }
  }

  /** The strictly sorted sequence of a finite set of strings. */
  ghost function SortedOf(s: set<string>): (r: seq<string>)
    ensures StrictlySorted(r) && Elems(r) == s
  {
    EnumerationExists(s);
    var e: seq<string> :| NoDuplicates(e) && Elems(e) == s;
    var r := SortStrings(e);
    SortedDistinctIsStrict(r);
    assert forall x :: x in r <==> x in e by {
      forall x ensures x in r <==> x in e {
        assert x in r <==> x in multiset(r);
        assert x in e <==> x in multiset(e);
      }
    }
    r
  }

  /** The elements of `s` that are in `keep`, in their order in `s`. */
  function Filter(s: seq<string>, keep: set<string>): seq<string>
    decreases |s|
  {
    if |s| == 0 then []
    else Filter(s[..|s| - 1], keep) + (if s[|s| - 1] in keep then [s[|s| - 1]] else [])
  }

  /** Filtering keeps exactly the elements in `keep`, and keeps a strictly
      sorted sequence strictly sorted. */
  lemma {:induction false} FilterProperties(s: seq<string>, keep: set<string>)
    ensures forall x :: x in Filter(s, keep) <==> x in s && x in keep
    ensures StrictlySorted(s) ==> StrictlySorted(Filter(s, keep))
    decreases |s|
  {
    if |s| > 0 {
      var init, last := s[..|s| - 1], s[|s| - 1];
      FilterProperties(init, keep);
      assert s == init + [last];
      var f := Filter(init, keep);
      if StrictlySorted(s) && last in keep {
        forall k | 0 <= k < |f| ensures Less(f[k], last) {
          assert f[k] in init;
        }
      }
    }
  }
}
