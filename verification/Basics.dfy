module Options {
  datatype Option<+T> = None | Some(value: T)
}

/** The kinds of watch events. */
module Watch {
  datatype EventType = Added | Modified | Deleted | Bookmark | Error
}

/** Sorting as the source's libraries promise it: a permutation in the order of a comparison,
    with nothing said about the relative order of elements that compare equal. */
module Ordering {

  ghost predicate StrictWeakOrder<T(!new)>(less: (T, T) -> bool) {
    && (forall a, b :: less(a, b) ==> !less(b, a))
    && (forall a, b, c :: !less(b, a) && !less(c, b) ==> !less(c, a))
  }

  predicate SortedBy<T>(s: seq<T>, less: (T, T) -> bool) {
    forall i, j :: 0 <= i < j < |s| ==> !less(s[j], s[i])
  }

  lemma ConsSorted<T>(x: T, s: seq<T>, less: (T, T) -> bool)
    requires SortedBy(s, less) && forall i :: 0 <= i < |s| ==> !less(s[i], x)
    ensures SortedBy([x] + s, less)
  {
    var r := [x] + s;
    forall i, j | 0 <= i < j < |r| ensures !less(r[j], r[i]) {
      assert r[j] == s[j - 1];
      assert i > 0 ==> r[i] == s[i - 1];
    }
  }

  lemma NoneBefore<T(!new)>(x: T, s: seq<T>, less: (T, T) -> bool)
    requires StrictWeakOrder(less) && SortedBy(s, less)
    requires s != [] && !less(s[0], x)
    ensures forall i :: 0 <= i < |s| ==> !less(s[i], x)
  {
    forall i | 0 <= i < |s| ensures !less(s[i], x) {
      assert i > 0 ==> !less(s[i], s[0]);
    }
  }

  lemma HeadBefore<T(!new)>(x: T, s: seq<T>, rest: seq<T>, less: (T, T) -> bool)
    requires StrictWeakOrder(less) && SortedBy(s, less)
    requires s != [] && less(s[0], x)
    requires forall y :: y in rest <==> y == x || y in s[1..]
    ensures forall i :: 0 <= i < |rest| ==> !less(rest[i], s[0])
  {
    forall i | 0 <= i < |rest| ensures !less(rest[i], s[0]) {
      assert rest[i] in rest;
      if rest[i] != x {
        var j :| 0 <= j < |s[1..]| && s[1..][j] == rest[i];
        assert !less(s[j + 1], s[0]);
      }
    }
  }

  lemma SplitHead<T>(s: seq<T>)
    requires s != []
    ensures multiset(s) == multiset{s[0]} + multiset(s[1..])
    ensures forall y :: y in s <==> y == s[0] || y in s[1..]
  {
    assert s == [s[0]] + s[1..];
  }

  /** Inserts x in front of the first element that does not come before it. */
  function Insert<T(!new)>(x: T, s: seq<T>, less: (T, T) -> bool): (r: seq<T>)
    requires StrictWeakOrder(less) && SortedBy(s, less)
    ensures SortedBy(r, less) && multiset(r) == multiset{x} + multiset(s)
    ensures forall y :: y in r <==> y == x || y in s
  {
    if s == [] then
      [x]
    else if !less(s[0], x) then
      NoneBefore(x, s, less);
      ConsSorted(x, s, less);
      [x] + s
    else
      var rest := Insert(x, s[1..], less);
      HeadBefore(x, s, rest, less);
      ConsSorted(s[0], rest, less);
      SplitHead(s);
      [s[0]] + rest
  }

  function Sort<T(!new)>(s: seq<T>, less: (T, T) -> bool): (r: seq<T>)
    requires StrictWeakOrder(less)
    ensures SortedBy(r, less) && multiset(r) == multiset(s)
  {
    if s == [] then
      []
    else
      assert s == [s[0]] + s[1..];
      Insert(s[0], Sort(s[1..], less), less)
  }

  lemma SameMultisetSameMembers<T>(a: seq<T>, b: seq<T>)
    requires multiset(a) == multiset(b)
    ensures |a| == |b| && forall x :: x in a <==> x in b
  {
    assert |multiset(a)| == |a| && |multiset(b)| == |b|;
    assert forall x :: x in a <==> x in multiset(a);
    assert forall x :: x in b <==> x in multiset(b);
  }
}

/** Strings as the source compares, joins and splits them. */
module Strings {
  import opened Ordering

  /** Lexicographic order by code point, which is the byte order of UTF-8 text. */
  predicate Less(a: string, b: string) {
    b != [] && (a == [] || a[0] < b[0] || (a[0] == b[0] && Less(a[1..], b[1..])))
  }

  /** A proper beginning comes first; else the first difference decides. */
  lemma {:induction false} LessExactly(a: string, b: string)
    ensures Less(a, b) <==> (a <= b && a != b) || exists i :: 0 <= i < |a| && i < |b| && a[..i] == b[..i] && a[i] < b[i]
  {
    if a != [] && b != [] {
      LessExactly(a[1..], b[1..]);
      assert a == [a[0]] + a[1..] && b == [b[0]] + b[1..];
      if Less(a[1..], b[1..]) && a[0] == b[0] && !(a <= b) {
        var i :| 0 <= i < |a[1..]| && i < |b[1..]| && a[1..][..i] == b[1..][..i] && a[1..][i] < b[1..][i];
        assert a[..i + 1] == [a[0]] + a[1..][..i] && b[..i + 1] == [b[0]] + b[1..][..i];
      }
      if i :| 0 <= i < |a| && i < |b| && a[..i] == b[..i] && a[i] < b[i] {
        assert i > 0 ==> a[0] == a[..i][0] && b[0] == b[..i][0];
        assert i > 0 ==> a[1..][..i - 1] == a[..i][1..] && b[1..][..i - 1] == b[..i][1..];
      }
      if a[0] < b[0] {
        assert a[..0] == b[..0];
      }
    }
  }

  lemma {:induction false} LessAsymmetric(a: string, b: string)
    requires Less(a, b)
    ensures !Less(b, a)
  {
    if a != [] && a[0] == b[0] {
      LessAsymmetric(a[1..], b[1..]);
    }
  }

  lemma LessTotal(a: string, b: string)
    ensures a == b || Less(a, b) || Less(b, a)
  {
    if a != [] && b != [] && a[0] == b[0] {
      LessTotal(a[1..], b[1..]);
      assert a == [a[0]] + a[1..] && b == [b[0]] + b[1..];
    }
  }

  lemma {:induction false} LessTransitive(a: string, b: string, c: string)
    requires Less(a, b) && Less(b, c)
    ensures Less(a, c)
  {
    if a != [] && a[0] == b[0] && b[0] == c[0] {
      LessTransitive(a[1..], b[1..], c[1..]);
    }
  }

  lemma LessIsOrder()
    ensures StrictWeakOrder(Less)
  {
    forall a, b | Less(a, b) ensures !Less(b, a) {
      LessAsymmetric(a, b);
    }
    forall a, b, c | !Less(b, a) && !Less(c, b) ensures !Less(c, a) {
      if Less(c, a) {
        LessAsymmetric(c, a);
        LessTotal(a, b);
        LessTotal(b, c);
        if a != b && b != c {
          LessTransitive(a, b, c);
        }
      }
    }
  }

  /** Strictly ascending: sorted and free of repeats. */
  predicate Ascending(s: seq<string>) {
    forall i, j :: 0 <= i < j < |s| ==> Less(s[i], s[j])
  }

  function Sorted(s: seq<string>): (r: seq<string>)
    ensures SortedBy(r, Less) && multiset(r) == multiset(s)
  {
    LessIsOrder();
    Sort(s, Less)
  }

  predicate NoRepeats<T(==)>(s: seq<T>) {
    forall i, j :: 0 <= i < j < |s| ==> s[i] != s[j]
  }

  /** A list without repeats, with one element taken out. */
  lemma DroppedMembers<T>(s: seq<T>, k: nat, rest: seq<T>)
    requires NoRepeats(s) && k < |s| && rest == s[..k] + s[k + 1..]
    ensures NoRepeats(rest)
    ensures forall x :: x in rest <==> x in s && x != s[k]
  {
    forall x ensures x in rest <==> x in s && x != s[k] {
      if x in s && x != s[k] {
        var i :| 0 <= i < |s| && s[i] == x;
        DroppedKeeps(s, k, i);
      }
      if x in rest {
        var j :| 0 <= j < |rest| && rest[j] == x;
        assert s[if j < k then j else j + 1] == x;
      }
    }
  }

  lemma DroppedKeeps<T>(s: seq<T>, k: nat, i: nat)
    requires k < |s| && i < |s| && i != k
    ensures s[i] in s[..k] + s[k + 1..]
  {
    assert (s[..k] + s[k + 1..])[if i < k then i else i - 1] == s[i];
  }

  lemma LastDropped<T>(s: seq<T>, x: T)
    ensures (s + [x])[..|s|] + (s + [x])[|s| + 1..] == s
  {
  }

  lemma NoRepeatsCount<T>(s: seq<T>, x: T)
    requires NoRepeats(s)
    ensures multiset(s)[x] <= 1
  {
    if s != [] {
      var n := |s| - 1;
      assert s == s[..n] + [s[n]];
      NoRepeatsCount(s[..n], x);
      if s[n] == x {
        assert x !in s[..n];
      }
    }
  }

  lemma CountNoRepeats<T>(s: seq<T>)
    requires forall x :: multiset(s)[x] <= 1
    ensures NoRepeats(s)
  {
    forall i, j | 0 <= i < j < |s| ensures s[i] != s[j] {
      assert s == s[..j] + [s[j]] + s[j + 1..];
      assert s[..j][i] == s[i];
      assert multiset(s)[s[j]] <= 1;
    }
  }

  /** Sorting a list without repeats gives a strictly ascending list of the same strings. */
  lemma SortedDistinct(s: seq<string>)
    requires NoRepeats(s)
    ensures Ascending(Sorted(s)) && |Sorted(s)| == |s|
    ensures forall x :: x in Sorted(s) <==> x in s
  {
    var r := Sorted(s);
    SameMultisetSameMembers(r, s);
    forall x ensures multiset(r)[x] <= 1 {
      NoRepeatsCount(s, x);
    }
    CountNoRepeats(r);
    forall i, j | 0 <= i < j < |r| ensures Less(r[i], r[j]) {
      LessTotal(r[i], r[j]);
    }
  }

  lemma HeadLeast(a: seq<string>, x: string)
    requires Ascending(a) && x in a
    ensures a[0] == x || Less(a[0], x)
  {
    var i :| 0 <= i < |a| && a[i] == x;
  }

  /** A strictly ascending list is determined by its members. */
  lemma {:induction false} AscendingUnique(a: seq<string>, b: seq<string>)
    requires Ascending(a) && Ascending(b)
    requires forall x :: x in a <==> x in b
    ensures a == b
  {
    assert a != [] ==> a[0] in b;
    assert b != [] ==> b[0] in a;
    if a != [] && b != [] {
      HeadLeast(a, b[0]);
      HeadLeast(b, a[0]);
      if a[0] != b[0] {
        LessAsymmetric(a[0], b[0]);
      }
      forall x ensures x in a[1..] <==> x in b[1..] {
        TailMember(a, x);
        TailMember(b, x);
      }
      AscendingUnique(a[1..], b[1..]);
      assert a == [a[0]] + a[1..] && b == [b[0]] + b[1..];
    }
  }

  lemma TailMember(a: seq<string>, x: string)
    requires Ascending(a) && a != []
    ensures x in a[1..] <==> x in a && x != a[0]
  {
    assert a == [a[0]] + a[1..];
    if x in a[1..] {
      var k :| 0 <= k < |a[1..]| && a[1..][k] == x;
      assert Less(a[0], a[k + 1]);
      if x == a[0] {
        LessAsymmetric(a[0], a[0]);
      }
    }
  }

  predicate IsLeast(x: string, s: set<string>) {
    x in s && forall y :: y in s && y != x ==> Less(x, y)
  }

  lemma {:induction false} FindLeast(s: set<string>) returns (x: string)
    requires s != {}
    ensures IsLeast(x, s)
  {
    var z :| z in s;
    x := z;
    if s != {z} {
      var least := FindLeast(s - {z});
      LessTotal(least, z);
      if Less(least, z) {
        x := least;
      } else {
        forall y | y in s && y != z ensures Less(z, y) {
          if y != least { LessTransitive(z, least, y); }
        }
      }
    }
  }

  lemma LeastExists(s: set<string>)
    requires s != {}
    ensures exists x :: x in s && IsLeast(x, s)
  {
    var x := FindLeast(s);
  }

  function Least(s: set<string>): (x: string)
    requires s != {}
    ensures IsLeast(x, s)
  {
    LeastExists(s);
    LessIsOrder();
    var x :| x in s && IsLeast(x, s);
    x
  }

  /** The members of a finite set in strictly ascending order. */
  function SortedKeys(s: set<string>): (r: seq<string>)
    ensures Ascending(r) && |r| == |s|
    ensures forall x :: x in r <==> x in s
  {
    if s == {} then [] else
      var x := Least(s);
      [x] + SortedKeys(s - {x})
  }

  lemma AscendingNoRepeats(s: seq<string>)
    requires Ascending(s)
    ensures NoRepeats(s)
  {
    forall i, j | 0 <= i < j < |s| ensures s[i] != s[j] {
      if s[i] == s[j] {
        LessAsymmetric(s[i], s[j]);
      }
    }
  }

  /** However the keys are listed, sorting them gives the same list. */
  lemma SortedIsSortedKeys(s: seq<string>, keys: set<string>)
    requires NoRepeats(s)
    requires forall x :: x in s <==> x in keys
    ensures Sorted(s) == SortedKeys(keys)
  {
    SortedDistinct(s);
    AscendingUnique(Sorted(s), SortedKeys(keys));
  }

  /** slices.Compact: drops an element equal to the one before it. */
  function Compact(s: seq<string>): (r: seq<string>)
    ensures forall x :: x in r <==> x in s
    ensures r == [] <==> s == []
    ensures s != [] ==> r[0] == s[0]
  {
    if |s| <= 1 then s
    else
      assert s == [s[0]] + s[1..];
      var rest := Compact(s[1..]);
      if s[0] == s[1] then rest else [s[0]] + rest
  }

  /** Compacting a sorted list leaves a strictly ascending one. */
  lemma {:induction false} CompactSorted(s: seq<string>)
    requires SortedBy(s, Less)
    ensures Ascending(Compact(s))
  {
    if |s| > 1 {
      CompactSorted(s[1..]);
      var rest := Compact(s[1..]);
      if s[0] != s[1] {
        forall x | x in rest ensures Less(s[0], x) {
          assert x in s[1..];
          var k :| 0 <= k < |s[1..]| && s[1..][k] == x;
          LessTotal(s[0], s[1]);
          if k > 0 {
            LessTotal(s[1], s[k + 1]);
            if s[1] != s[k + 1] { LessTransitive(s[0], s[1], s[k + 1]); }
          }
        }
      }
    }
  }

  /** strings.Contains */
  predicate Contains(s: string, part: string) {
    part <= s || (s != [] && Contains(s[1..], part))
  }

  ghost predicate StandsAt(s: string, part: string, i: nat) {
    i + |part| <= |s| && s[i..i + |part|] == part
  }

  lemma {:induction false} ContainsExactly(s: string, part: string)
    ensures Contains(s, part) <==> exists i :: StandsAt(s, part, i)
  {
    if part <= s {
      assert StandsAt(s, part, 0);
    } else if s != [] {
      ContainsExactly(s[1..], part);
      if i: nat :| StandsAt(s[1..], part, i) {
        assert s[1..][i..i + |part|] == s[i + 1..i + 1 + |part|];
        assert StandsAt(s, part, i + 1);
      }
      if i: nat :| StandsAt(s, part, i) {
        assert i > 0;
        assert s[1..][i - 1..i - 1 + |part|] == s[i..i + |part|];
        assert StandsAt(s[1..], part, i - 1);
      }
    }
  }

  /** strings.Join */
  function Join(parts: seq<string>, sep: string): string {
    if |parts| == 0 then ""
    else if |parts| == 1 then parts[0]
    else parts[0] + sep + Join(parts[1..], sep)
  }

  /** strings.Split for a one-character separator. */
  function Split(s: string, sep: char): (parts: seq<string>)
    ensures |parts| >= 1
  {
    if s == [] then [""]
    else
      var rest := Split(s[1..], sep);
      if s[0] == sep then [""] + rest
      else [[s[0]] + rest[0]] + rest[1..]
  }

  /** Text without the separator is one part. */
  lemma {:induction false} SplitNone(s: string, sep: char)
    requires sep !in s
    ensures Split(s, sep) == [s]
  {
    if s != [] {
      SplitNone(s[1..], sep);
      assert s == [s[0]] + s[1..];
    }
  }
}
