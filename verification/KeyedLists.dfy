/** What the two list merges mean: ordered unique union for lists merged by value, and a finite-map
    union that conserves every item for lists merged by key. */
module KeyedLists {
  import opened Options
  import opened Strings
  import opened GoValues
  import opened MergeSchema
  import opened MergeEngine

  // ---- mergeScalarList ----

  /** The first position of x in xs. */
  ghost function First(xs: seq<Value>, x: Value): (i: nat)
    requires x in xs
    ensures i < |xs| && xs[i] == x && forall k :: 0 <= k < i ==> xs[k] != x
  {
    if xs[0] == x then 0
    else
      assert xs == [xs[0]] + xs[1..];
      First(xs[1..], x) + 1
  }

  /** No repeats, exactly the members of xs, ordered as they first occur in xs. */
  ghost predicate IsOrderedUnique(r: seq<Value>, xs: seq<Value>) {
    && NoRepeats(r)
    && (forall x :: x in r <==> x in xs)
    && (forall i, j :: 0 <= i < j < |r| ==> First(xs, r[i]) < First(xs, r[j]))
  }

  lemma {:induction false} AddNewAppends(acc: seq<Value>, a: seq<Value>, b: seq<Value>)
    ensures AddNew(acc, a + b) == AddNew(AddNew(acc, a), b)
  {
    if b == [] {
      assert a + b == a;
    } else {
      var n := |b| - 1;
      assert (a + b)[..|a + b| - 1] == a + b[..n];
      AddNewAppends(acc, a, b[..n]);
    }
  }

  lemma FirstExtends(xs: seq<Value>, y: Value, x: Value)
    requires x in xs
    ensures First(xs + [y], x) == First(xs, x)
  {
    var i, j := First(xs, x), First(xs + [y], x);
    assert (xs + [y])[i] == x;
    assert j < |xs| ==> (xs + [y])[j] == xs[j];
  }

  lemma {:induction false} AddNewIsOrderedUnique(xs: seq<Value>)
    ensures IsOrderedUnique(AddNew([], xs), xs)
  {
    if xs != [] {
      var n := |xs| - 1;
      var init, y := xs[..n], xs[n];
      AddNewIsOrderedUnique(init);
      assert xs == init + [y];
      var before, r := AddNew([], init), AddNew([], xs);
      forall x | x in init ensures First(xs, x) == First(init, x) {
        FirstExtends(init, y, x);
      }
      forall i, j | 0 <= i < j < |r| ensures First(xs, r[i]) < First(xs, r[j]) {
        if j == |before| {
          assert First(xs, y) == n;
        }
      }
    }
  }

  /** The merge by value: ordered unique union of the original and then the patch. */
  lemma ScalarUnionMeaning(original: seq<Value>, patch: seq<Value>)
    ensures IsOrderedUnique(ScalarUnion(original, patch), original + patch)
  {
    AddNewAppends([], original, patch);
    AddNewIsOrderedUnique(original + patch);
  }

  lemma {:induction false} IncreasingUnique(a: seq<int>, b: seq<int>)
    requires forall i, j :: 0 <= i < j < |a| ==> a[i] < a[j]
    requires forall i, j :: 0 <= i < j < |b| ==> b[i] < b[j]
    requires forall x :: x in a <==> x in b
    ensures a == b
  {
    assert a != [] ==> a[0] in a && a[0] in b;
    assert b != [] ==> b[0] in b && b[0] in a;
    if a != [] && b != [] {
      assert a[0] == b[0];
      assert a == [a[0]] + a[1..] && b == [b[0]] + b[1..];
      forall x ensures x in a[1..] <==> x in b[1..] {
        assert x in a[1..] <==> x in a && x != a[0];
        assert x in b[1..] <==> x in b && x != b[0];
      }
      IncreasingUnique(a[1..], b[1..]);
    }
  }

  ghost function Firsts(xs: seq<Value>, r: seq<Value>): (f: seq<int>)
    requires forall x :: x in r ==> x in xs
    ensures |f| == |r| && forall i :: 0 <= i < |r| ==> f[i] == First(xs, r[i])
  {
    seq(|r|, i requires 0 <= i < |r| => First(xs, r[i]))
  }

  /** That description leaves no freedom. */
  lemma OrderedUniqueDetermines(r: seq<Value>, t: seq<Value>, xs: seq<Value>)
    requires IsOrderedUnique(r, xs) && IsOrderedUnique(t, xs)
    ensures r == t
  {
    var a, b := Firsts(xs, r), Firsts(xs, t);
    forall y | y in a ensures y in b {
      var i :| 0 <= i < |a| && a[i] == y;
      assert r[i] in t;
      var j :| 0 <= j < |t| && t[j] == r[i];
      assert b[j] == y;
    }
    forall y | y in b ensures y in a {
      var i :| 0 <= i < |b| && b[i] == y;
      assert t[i] in r;
      var j :| 0 <= j < |r| && r[j] == t[i];
      assert a[j] == y;
    }
    IncreasingUnique(a, b);
    forall i | 0 <= i < |r| ensures r[i] == t[i] {
      assert xs[a[i]] == r[i] && xs[b[i]] == t[i];
    }
  }

  /** Adding what is already there changes nothing. */
  lemma {:induction false} AddNewAbsorbs(acc: seq<Value>, xs: seq<Value>)
    requires forall x :: x in xs ==> x in acc
    ensures AddNew(acc, xs) == acc
  {
    if xs != [] {
      AddNewAbsorbs(acc, xs[..|xs| - 1]);
    }
  }

  lemma {:induction false} AddNewMembers(acc: seq<Value>, xs: seq<Value>)
    ensures forall x :: x in AddNew(acc, xs) <==> x in acc || x in xs
    ensures NoRepeats(acc) ==> NoRepeats(AddNew(acc, xs))
    ensures acc <= AddNew(acc, xs)
  {
    if xs != [] {
      AddNewMembers(acc, xs[..|xs| - 1]);
      assert xs == xs[..|xs| - 1] + [xs[|xs| - 1]];
    }
  }

  /** Deduplicating before adding makes no difference. */
  lemma {:induction false} AddNewOfUnique(acc: seq<Value>, xs: seq<Value>)
    ensures AddNew(acc, AddNew([], xs)) == AddNew(acc, xs)
  {
    if xs != [] {
      var n := |xs| - 1;
      var before, y := AddNew([], xs[..n]), xs[n];
      AddNewOfUnique(acc, xs[..n]);
      AddNewMembers([], xs[..n]);
      AddNewMembers(acc, xs[..n]);
      assert (before + [y])[..|before|] == before;
      assert y in xs[..n] ==> AddNew([], xs) == before;
    }
  }

  /** A list without repeats is its own union with itself. */
  lemma {:induction false} AddNewKeeps(xs: seq<Value>)
    requires NoRepeats(xs)
    ensures AddNew([], xs) == xs
  {
    if xs != [] {
      AddNewKeeps(xs[..|xs| - 1]);
      assert xs == xs[..|xs| - 1] + [xs[|xs| - 1]];
    }
  }

  /** Associative, and a second merge of the same patch adds nothing. */
  lemma ScalarUnionLaws(a: seq<Value>, b: seq<Value>, c: seq<Value>)
    ensures ScalarUnion(ScalarUnion(a, b), c) == ScalarUnion(a, ScalarUnion(b, c))
    ensures ScalarUnion(ScalarUnion(a, b), b) == ScalarUnion(a, b)
  {
    var left, right := ScalarUnion(a, b), ScalarUnion(b, c);
    var fromA := AddNew([], a);
    AddNewMembers([], a);
    AddNewMembers(fromA, b);
    AddNewKeeps(left);
    AddNewAbsorbs(left, b);
    AddNewAppends(fromA, b, c);
    AddNewAppends([], b, c);
    AddNewOfUnique(fromA, b + c);
  }

  // ---- composite keys ----

  /** A part in which the separator cannot begin before the part ends. */
  predicate Separable(part: string) {
    !Contains(part + ":", "::")
  }

  /** Every part but the last is separable; the last may hold anything. */
  ghost predicate Unambiguous(parts: seq<string>) {
    forall i :: 0 <= i < |parts| - 1 ==> Separable(parts[i])
  }

  lemma ContainsTail(s: string, part: string)
    requires s != [] && !Contains(s, part)
    ensures !Contains(s[1..], part)
  {
  }

  lemma StartsWithSeparator(b: string, restA: string, restB: string)
    requires b != [] && "::" + restA == b + "::" + restB
    ensures !Separable(b)
  {
    var whole := "::" + restA;
    assert b[0] == whole[0] == ':';
    assert |b| > 1 ==> b[1] == whole[1] == ':';
    assert (b + ":")[..2] == "::";
  }

  /** Where the first separator ends a separable part, the rest of the text is fixed. */
  lemma {:induction false} SplitOnce(a: string, b: string, restA: string, restB: string)
    requires Separable(a) && Separable(b)
    requires a + "::" + restA == b + "::" + restB
    ensures a == b && restA == restB
  {
    var whole := a + "::" + restA;
    if a != [] && b != [] {
      assert whole[0] == a[0] == b[0];
      assert (a + ":")[1..] == a[1..] + ":" && (b + ":")[1..] == b[1..] + ":";
      ContainsTail(a + ":", "::");
      ContainsTail(b + ":", "::");
      assert whole[1..] == a[1..] + "::" + restA == b[1..] + "::" + restB;
      SplitOnce(a[1..], b[1..], restA, restB);
      assert a == [a[0]] + a[1..] && b == [b[0]] + b[1..];
    } else if b != [] {
      StartsWithSeparator(b, restA, restB);
    } else if a != [] {
      StartsWithSeparator(a, restB, restA);
    } else {
      assert restA == whole[2..] == restB;
    }
  }

  /** Unambiguous key fields are told apart by their composite key. */
  lemma {:induction false} JoinInjective(a: seq<string>, b: seq<string>)
    requires |a| == |b| && Unambiguous(a) && Unambiguous(b)
    ensures Join(a, "::") == Join(b, "::") <==> a == b
  {
    if Join(a, "::") == Join(b, "::") && |a| > 0 {
      if |a| > 1 {
        SplitOnce(a[0], b[0], Join(a[1..], "::"), Join(b[1..], "::"));
        JoinInjective(a[1..], b[1..]);
      }
      assert a == [a[0]] + a[1..] && b == [b[0]] + b[1..];
    }
  }

  /** Text without ':' is separable: for such fields equal composite keys mean equal fields. */
  lemma {:induction false} NoColonSeparable(part: string)
    requires ':' !in part
    ensures Separable(part)
  {
    if part != [] {
      NoColonSeparable(part[1..]);
      assert (part + ":")[1..] == part[1..] + ":";
      assert (part + ":")[0] == part[0] != ':';
    } else {
      assert (part + ":")[1..] == "";
    }
  }

  /** The text in front of the first separator, and the text behind it. */
  function CutAtSeparator(s: string): (r: (string, string))
    requires Contains(s, "::")
    ensures s == r.0 + "::" + r.1 && |r.0| + |r.1| + 2 == |s|
  {
    if "::" <= s then ("", s[2..])
    else
      var r := CutAtSeparator(s[1..]);
      assert s == [s[0]] + s[1..];
      ([s[0]] + r.0, r.1)
  }

  lemma {:induction false} FrontSeparable(s: string)
    requires Contains(s, "::")
    ensures Separable(CutAtSeparator(s).0)
  {
    if !("::" <= s) {
      FrontSeparable(s[1..]);
      var u := CutAtSeparator(s[1..]).0;
      assert CutAtSeparator(s).0 == [s[0]] + u;
      assert ([s[0]] + u + ":")[1..] == u + ":";
      assert (u + ":")[0] == s[1] && ([s[0]] + u + ":")[1] == s[1];
    } else {
      assert (":")[1..] == "";
    }
  }

  /** The fields that a composite key is read as when every separator is taken as early as it can be: text of a
      part behind its first separator is handed to the next part. */
  function Normal(parts: seq<string>): (r: seq<string>)
    ensures |r| == |parts|
    decreases |parts|
  {
    if |parts| <= 1 then parts
    else if Separable(parts[0]) then [parts[0]] + Normal(parts[1..])
    else
      var cut := CutAtSeparator(parts[0] + ":");
      [cut.0] + Normal([cut.1 + ":" + parts[1]] + parts[2..])
  }

  /** The same key: nothing is lost or added by reading it that way. */
  lemma {:induction false} NormalKeepsKey(parts: seq<string>)
    ensures Join(Normal(parts), "::") == Join(parts, "::") && Unambiguous(Normal(parts))
    decreases |parts|
  {
    if |parts| > 1 {
      var r := Normal(parts);
      if Separable(parts[0]) {
        NormalKeepsKey(parts[1..]);
        assert r[1..] == Normal(parts[1..]);
        UnambiguousCons(r);
      } else {
        var cut := CutAtSeparator(parts[0] + ":");
        var next := [cut.1 + ":" + parts[1]] + parts[2..];
        NormalKeepsKey(next);
        FrontSeparable(parts[0] + ":");
        assert r[1..] == Normal(next);
        UnambiguousCons(r);
        HandedOver(parts, cut.0, cut.1);
      }
    }
  }

  lemma UnambiguousCons(r: seq<string>)
    requires |r| > 1 && Separable(r[0]) && Unambiguous(r[1..])
    ensures Unambiguous(r)
  {
    forall i | 0 <= i < |r| - 1 ensures Separable(r[i]) {
      assert i > 0 ==> r[1..][i - 1] == r[i];
    }
  }

  lemma ShiftColon(x: string, y: string, u: string, v: string)
    requires x + ":" == u + "::" + v
    ensures x + "::" + y == u + "::" + (v + ":" + y)
  {
    var tail := ":" + y;
    assert x + "::" + y == (x + ":") + tail;
    assert (u + "::" + v) + tail == (u + "::") + (v + tail);
    assert v + tail == v + ":" + y;
  }

  /** The ':' borrowed to complete the separator is given back to the part behind it. */
  lemma HandedOver(parts: seq<string>, u: string, v: string)
    requires |parts| > 1 && parts[0] + ":" == u + "::" + v
    ensures u + "::" + Join([v + ":" + parts[1]] + parts[2..], "::") == Join(parts, "::")
  {
    var rest := [v + ":" + parts[1]] + parts[2..];
    var next := [u] + rest;
    assert next[1..] == rest && next[2..] == parts[2..] && next[1] == v + ":" + parts[1];
    assert Join(next, "::") == u + "::" + Join(rest, "::");
    ShiftColon(parts[0], parts[1], u, v);
    JoinFront(parts);
    JoinFront(next);
  }

  /** Exactly when two items of a list have the same composite key: when their key fields are read the same. */
  lemma SameKeyExactly(a: seq<string>, b: seq<string>)
    requires |a| == |b|
    ensures Join(a, "::") == Join(b, "::") <==> Normal(a) == Normal(b)
  {
    NormalKeepsKey(a);
    NormalKeepsKey(b);
    JoinInjective(Normal(a), Normal(b));
  }

  /** Reading changes nothing exactly when no separator begins inside a part but the last. */
  lemma {:induction false} NormalIsItself(parts: seq<string>)
    ensures Normal(parts) == parts <==> Unambiguous(parts)
    decreases |parts|
  {
    if !Unambiguous(parts) {
      NormalKeepsKey(parts);
    } else if |parts| > 1 {
      assert Separable(parts[0]);
      forall i | 0 <= i < |parts[1..]| - 1 ensures Separable(parts[1..][i]) {
        assert parts[1..][i] == parts[i + 1];
      }
      NormalIsItself(parts[1..]);
      assert parts == [parts[0]] + parts[1..];
    }
  }

  /** No separator, nor half of one, at any place where it could be taken for another. */
  ghost predicate Unshared(parts: seq<string>) {
    |parts| > 1 ==> forall i :: 0 <= i < |parts| ==>
      && !Contains(parts[i], "::")
      && (i < |parts| - 1 ==> !EndsWithColon(parts[i]))
      && (i > 0 ==> !StartsWithColon(parts[i]))
  }

  predicate StartsWithColon(s: string) {
    s != [] && s[0] == ':'
  }

  predicate EndsWithColon(s: string) {
    s != [] && s[|s| - 1] == ':'
  }

  /** A part is separable exactly when it holds no separator and no half of one at its end. */
  lemma {:induction false} SeparableExactly(s: string)
    ensures Separable(s) <==> !Contains(s, "::") && !EndsWithColon(s)
  {
    if s == [] {
      assert (s + ":")[1..] == "";
    } else {
      SeparableExactly(s[1..]);
      assert (s + ":")[1..] == s[1..] + ":";
      assert |s| > 1 ==> s[1..][|s| - 2] == s[|s| - 1];
      assert |s| == 1 ==> s[1..] == "" && (s + ":")[1] == ':';
      assert "::" <= s + ":" <==> "::" <= s || (|s| == 1 && s[0] == ':') by {
        if |s| > 1 {
          assert (s + ":")[..2] == s[..2];
        }
      }
    }
  }

  lemma {:induction false} HoldsSeparator(a: string, b: string)
    ensures Contains(a + "::" + b, "::")
  {
    var s := a + "::" + b;
    if a == [] {
      assert s[..2] == "::";
    } else {
      HoldsSeparator(a[1..], b);
      assert s[1..] == a[1..] + "::" + b;
    }
  }

  /** What was handed over shows in the next part. */
  lemma HandedOverShows(part: string, u: string, v: string, next: string)
    requires part + ":" == u + "::" + v
    ensures Contains(v + ":" + next, "::") || StartsWithColon(v + ":" + next)
  {
    if v == [] {
      assert (v + ":" + next)[0] == ':';
    } else {
      var n := |v| - 1;
      assert v[n] == (u + "::" + v)[|u + "::" + v| - 1] == (part + ":")[|part|] == ':';
      assert v + ":" + next == v[..n] + "::" + next;
      HoldsSeparator(v[..n], next);
    }
  }

  lemma UnsharedTail(parts: seq<string>)
    requires |parts| > 1 && Unshared(parts)
    ensures Unshared(parts[1..]) && !Contains(parts[1], "::") && !StartsWithColon(parts[1]) && Separable(parts[0])
  {
    SeparableExactly(parts[0]);
    forall i | 0 <= i < |parts| - 1
      ensures !Contains(parts[1..][i], "::") && !StartsWithColon(parts[1..][i])
      ensures i < |parts| - 2 ==> !EndsWithColon(parts[1..][i])
    {
      assert parts[1..][i] == parts[i + 1];
    }
  }

  /** Nothing else is read as such parts. */
  lemma {:induction false} OnlyReading(a: seq<string>, b: seq<string>)
    requires |a| == |b| && Unshared(a) && Normal(b) == a
    ensures b == a
    decreases |a|
  {
    if |b| > 1 {
      UnsharedTail(a);
      if Separable(b[0]) {
        assert a[1..] == Normal(b[1..]);
        OnlyReading(a[1..], b[1..]);
        assert a == [a[0]] + a[1..] && b == [b[0]] + b[1..];
      } else {
        var cut := CutAtSeparator(b[0] + ":");
        var next := [cut.1 + ":" + b[1]] + b[2..];
        assert a[1..] == Normal(next);
        HandedOverShows(b[0], cut.0, cut.1, b[1]);
        assert a[1] == a[1..][0];
        OnlyReading(a[1..], next);
      }
    }
  }

  lemma {:induction false} JoinReplaced(front: seq<string>, x: string, y: string, u: string, v: string, behind: seq<string>)
    requires x + "::" + y == u + "::" + v
    ensures Join(front + [x, y] + behind, "::") == Join(front + [u, v] + behind, "::")
  {
    var a, b := front + [x, y] + behind, front + [u, v] + behind;
    if front == [] {
      JoinFront(a);
      JoinFront(b);
      assert a[2..] == behind && b[2..] == behind;
    } else {
      JoinReplaced(front[1..], x, y, u, v, behind);
      assert a[1..] == front[1..] + [x, y] + behind && b[1..] == front[1..] + [u, v] + behind;
    }
  }

  /** A pair of neighbours cut in another way gives other parts with the same key. */
  lemma Recut(parts: seq<string>, i: nat, u: string, v: string) returns (b: seq<string>)
    requires i + 1 < |parts| && parts[i] + "::" + parts[i + 1] == u + "::" + v && parts[i] != u
    ensures |b| == |parts| && b != parts && Join(b, "::") == Join(parts, "::")
  {
    b := parts[..i] + [u, v] + parts[i + 2..];
    JoinReplaced(parts[..i], parts[i], parts[i + 1], u, v, parts[i + 2..]);
    assert parts == parts[..i] + [parts[i], parts[i + 1]] + parts[i + 2..];
    assert b[i] == u;
  }

  lemma MovedBack(x: string, y: string)
    requires StartsWithColon(y)
    ensures x + "::" + y == (x + ":") + "::" + y[1..]
  {
    assert y == ":" + y[1..];
  }

  lemma MovedOver(x: string, u: string, v: string)
    ensures x + "::" + (u + "::" + v) == (x + "::" + u) + "::" + v
  {
  }

  lemma SharedPartner(parts: seq<string>) returns (b: seq<string>)
    requires !Unshared(parts)
    ensures |b| == |parts| && b != parts && Join(b, "::") == Join(parts, "::")
  {
    if !Unambiguous(parts) {
      b := Normal(parts);
      NormalKeepsKey(parts);
    } else {
      var i := SharedAt(parts);
      if StartsWithColon(parts[i]) && i > 0 {
        MovedBack(parts[i - 1], parts[i]);
        b := Recut(parts, i - 1, parts[i - 1] + ":", parts[i][1..]);
      } else {
        var cut := CutAtSeparator(parts[i]);
        MovedOver(parts[i - 1], cut.0, cut.1);
        b := Recut(parts, i - 1, parts[i - 1] + "::" + cut.0, cut.1);
      }
    }
  }

  lemma SharedAt(parts: seq<string>) returns (i: nat)
    requires !Unshared(parts) && Unambiguous(parts)
    ensures 0 < i < |parts| && (StartsWithColon(parts[i]) || Contains(parts[i], "::"))
  {
    i :| 0 <= i < |parts| && !(
      && !Contains(parts[i], "::")
      && (i < |parts| - 1 ==> !EndsWithColon(parts[i]))
      && (i > 0 ==> !StartsWithColon(parts[i])));
    if i < |parts| - 1 {
      SeparableExactly(parts[i]);
    }
  }

  /** Exactly when a tuple of key fields shares its composite key with no other. */
  lemma UnsharedExactly(a: seq<string>)
    ensures (forall b :: |b| == |a| && Join(b, "::") == Join(a, "::") ==> b == a) <==> Unshared(a)
  {
    if Unshared(a) {
      forall b | |b| == |a| && Join(b, "::") == Join(a, "::") ensures b == a {
        SameKeyExactly(a, b);
        UnsharedIsNormal(a);
        OnlyReading(a, b);
      }
    } else {
      var b := SharedPartner(a);
    }
  }

  lemma UnsharedIsNormal(a: seq<string>)
    requires Unshared(a)
    ensures Normal(a) == a
  {
    forall i | 0 <= i < |a| - 1 ensures Separable(a[i]) {
      SeparableExactly(a[i]);
    }
    NormalIsItself(a);
  }

  ghost predicate PlainFields(item: Value, keys: seq<string>) {
    IsMap(item) && forall i :: 0 <= i < |keys| ==>
      keys[i] in Fields(item) && Fields(item)[keys[i]].Str? && ':' !in Fields(item)[keys[i]].s
  }

  /** For key fields that are text without ':', the same composite key means the same value in every key field. */
  lemma PlainKeysExactly(p: Value, q: Value, keys: seq<string>)
    requires PlainFields(p, keys) && PlainFields(q, keys)
    ensures CompositeKey(Fields(p), keys) == CompositeKey(Fields(q), keys) <==>
            forall i :: 0 <= i < |keys| ==> Fields(p)[keys[i]] == Fields(q)[keys[i]]
  {
    var a, b := KeyParts(Fields(p), keys), KeyParts(Fields(q), keys);
    forall i | 0 <= i < |keys|
      ensures Separable(a[i]) && Separable(b[i])
      ensures a[i] == b[i] <==> Fields(p)[keys[i]] == Fields(q)[keys[i]]
    {
      NoColonSeparable(a[i]);
      NoColonSeparable(b[i]);
    }
    JoinInjective(a, b);
    assert a == b <==> forall i :: 0 <= i < |keys| ==> a[i] == b[i];
  }

  /** {"x": "a:", "y": "b"} and {"x": "a", "y": ":b"}: different items, one composite key. */
  lemma KeysCollide()
    ensures var p := Obj(map["x" := Str("a:"), "y" := Str("b")]);
            var q := Obj(map["x" := Str("a"), "y" := Str(":b")]);
            p != q && ItemKeyOf(p, ["x", "y"]) == ItemKeyOf(q, ["x", "y"]) == Some("a:::b")
    ensures Normal(["a:", "b"]) == Normal(["a", ":b"]) == ["a", ":b"]
  {
    var keys := ["x", "y"];
    var p, q := map["x" := Str("a:"), "y" := Str("b")], map["x" := Str("a"), "y" := Str(":b")];
    assert p["x"] != q["x"];
    assert FirstMissing(p, keys) == FirstMissing(q, keys) == None;
    assert KeyParts(p, keys) == ["a:", "b"] && KeyParts(q, keys) == ["a", ":b"];
    TwoParts("a:", "b");
    TwoParts("a", ":b");
    assert "a:" + "::" + "b" == "a:::b" && "a" + "::" + ":b" == "a:::b";
    SameKeyExactly(["a:", "b"], ["a", ":b"]);
    NoColonSeparable("a");
    NormalIsItself(["a", ":b"]);
  }

  lemma TwoParts(a: string, b: string)
    ensures Join([a, b], "::") == a + "::" + b
  {
    assert [a, b][1..] == [b];
  }

  lemma Regroup(a: string, b: string, c: string, d: string)
    ensures a + ((b + c) + d) == (a + b) + (c + d)
  {
  }

  lemma JoinFront(a: seq<string>)
    requires |a| >= 2
    ensures Join(a, "::") == a[0] + "::" + a[1] + (if |a| == 2 then "" else "::" + Join(a[2..], "::"))
  {
    var tail := a[1..];
    assert tail[0] == a[1] && tail[1..] == a[2..];
    assert Join(a, "::") == (a[0] + "::") + Join(tail, "::");
    if |a| == 2 {
      assert Join(tail, "::") == a[1];
    } else {
      var rest := Join(a[2..], "::");
      assert Join(tail, "::") == (a[1] + "::") + rest;
      Regroup(a[0] + "::", a[1], "::", rest);
    }
  }

  // ---- what happens to each original item ----

  /** The non-empty composite key of an item that has one. */
  function ItemKeyOf(item: Value, keys: seq<string>): Option<string> {
    var key := KeyOfItem(0, item, keys);
    if key.Keyed? then Some(key.key) else None
  }

  /** The keys of the original items that have one. */
  ghost function OriginalKeys(original: seq<Value>, keys: seq<string>): set<string> {
    if original == [] then {} else
    var last := ItemKeyOf(original[|original| - 1], keys);
    OriginalKeys(original[..|original| - 1], keys) + (if last.Some? then {last.value} else {})
  }

  lemma {:induction false} OriginalKeysMembers(original: seq<Value>, keys: seq<string>, c: string)
    ensures c in OriginalKeys(original, keys) <==>
            exists i :: 0 <= i < |original| && ItemKeyOf(original[i], keys) == Some(c)
  {
    if original != [] {
      var init := original[..|original| - 1];
      OriginalKeysMembers(init, keys, c);
      assert forall i :: 0 <= i < |init| ==> init[i] == original[i];
    }
  }

  /** Item i is merged: its key is in the index and no earlier item has it. */
  ghost predicate UsesEntry(original: seq<Value>, i: nat, index: map<string, Value>, keys: seq<string>)
    requires i < |original|
  {
    var key := ItemKeyOf(original[i], keys);
    key.Some? && key.value in index && key.value !in OriginalKeys(original[..i], keys)
  }

  /** What position i of the result holds when the merge succeeds. */
  ghost predicate ItemResult(models: Models, original: seq<Value>, i: nat, index: map<string, Value>,
                             keys: seq<string>, itemSchema: Option<Schema>, result: Value)
    requires i < |original| && (forall c :: c in index ==> IsMap(index[c]))
  {
    if UsesEntry(original, i, index, keys) then
      var merged := MergeObject(models, original[i], index[ItemKeyOf(original[i], keys).value], itemSchema);
      merged.Merged? && result == merged.value
    else
      result == original[i]
  }

  /** Every original item stays at its index, unchanged or merged; an entry is used by the first item
      with its key, and exactly the entries without such an item are left. */
  lemma {:induction false} MergeItemsExact(models: Models, original: seq<Value>, index: map<string, Value>,
                                           keys: seq<string>, itemSchema: Option<Schema>, patch: Value)
    requires IndexOf(index, patch)
    requires MergeItems(models, original, index, keys, itemSchema, patch).ItemsMerged?
    ensures var r := MergeItems(models, original, index, keys, itemSchema, patch);
            && |r.items| == |original|
            && r.rest == index - OriginalKeys(original, keys)
            && forall i :: 0 <= i < |original| ==> ItemResult(models, original, i, index, keys, itemSchema, r.items[i])
  {
    if original != [] {
      var n := |original| - 1;
      var init := original[..n];
      MergeItemsExact(models, init, index, keys, itemSchema, patch);
      var before := MergeItems(models, init, index, keys, itemSchema, patch);
      assert original[..n + 1] == original;
      MergeItemsStep(models, original, n, index, keys, itemSchema, patch);
      MergeItemMeaning(models, original, index, before.rest, keys, itemSchema, patch);
      var step := MergeItem(models, n, original[n], before.rest, keys, itemSchema, patch);
      ResultsExtend(models, original, n, index, keys, itemSchema, before.items, step.value);
    }
  }

  lemma ResultsExtend(models: Models, items: seq<Value>, n: nat, index: map<string, Value>, keys: seq<string>,
                      itemSchema: Option<Schema>, results: seq<Value>, last: Value)
    requires |items| == n + 1 && |results| == n && (forall c :: c in index ==> IsMap(index[c]))
    requires forall i :: 0 <= i < n ==> ItemResult(models, items[..n], i, index, keys, itemSchema, results[i])
    requires ItemResult(models, items, n, index, keys, itemSchema, last)
    ensures forall i :: 0 <= i <= n ==> ItemResult(models, items, i, index, keys, itemSchema, (results + [last])[i])
  {
    forall i | 0 <= i < n ensures ItemResult(models, items, i, index, keys, itemSchema, results[i]) {
      assert items[..n][..i] == items[..i] && items[..n][i] == items[i];
      assert ItemResult(models, items[..n], i, index, keys, itemSchema, results[i]);
    }
  }

  lemma MergeItemMeaning(models: Models, original: seq<Value>, index: map<string, Value>, rest: map<string, Value>,
                         keys: seq<string>, itemSchema: Option<Schema>, patch: Value)
    requires original != [] && IndexOf(index, patch) && IndexOf(rest, patch)
    requires rest == index - OriginalKeys(original[..|original| - 1], keys)
    ensures var n := |original| - 1;
            var step := MergeItem(models, n, original[n], rest, keys, itemSchema, patch);
            && Used(rest, KeyOfItem(n, original[n], keys)) == index - OriginalKeys(original, keys)
            && (step.Merged? ==> ItemResult(models, original, n, index, keys, itemSchema, step.value))
  {
    var n := |original| - 1;
    SameKey(n, original[n], keys);
  }

  /** The position of an item only shows in its error. */
  lemma SameKey(i: nat, item: Value, keys: seq<string>)
    ensures KeyOfItem(i, item, keys).Keyed? <==> ItemKeyOf(item, keys).Some?
    ensures KeyOfItem(i, item, keys).Keyed? ==> KeyOfItem(i, item, keys).key == ItemKeyOf(item, keys).value
  {
  }

  // ---- the patch index ----

  /** PatchIndex, one item further. */
  lemma PatchIndexStep(items: seq<Value>, keys: seq<string>)
    requires items != []
    ensures var before, last, r := PatchIndex(items[..|items| - 1], keys), items[|items| - 1], PatchIndex(items, keys);
            var key := ItemKeyOf(last, keys);
            && (r.Index? <==> before.Index? && !Keyless(last, keys))
            && (r.Index? ==> r.entries == if key.Some? then before.entries[key.value := last] else before.entries)
  {
    SameKey(|items| - 1, items[|items| - 1], keys);
  }

  /** An object of a patch list without a usable key. */
  predicate Keyless(item: Value, keys: seq<string>) {
    IsMap(item) && ItemKeyOf(item, keys).None?
  }

  lemma {:induction false} PatchIndexFails(items: seq<Value>, keys: seq<string>)
    ensures PatchIndex(items, keys).IndexError? <==> exists i :: 0 <= i < |items| && Keyless(items[i], keys)
  {
    if items != [] {
      var n := |items| - 1;
      PatchIndexFails(items[..n], keys);
      PatchIndexStep(items, keys);
      assert forall i :: 0 <= i < n ==> items[..n][i] == items[i];
    }
  }

  lemma {:induction false} PatchIndexHolds(items: seq<Value>, keys: seq<string>)
    requires PatchIndex(items, keys).Index?
    ensures PatchIndex(items, keys).entries.Keys == OriginalKeys(items, keys)
    ensures forall c :: c in PatchIndex(items, keys).entries ==>
              exists i :: IsLastWith(items, i, keys, c) && PatchIndex(items, keys).entries[c] == items[i]
  {
    if items != [] {
      var n := |items| - 1;
      PatchIndexStep(items, keys);
      PatchIndexHolds(items[..n], keys);
      var before, entries := PatchIndex(items[..n], keys).entries, PatchIndex(items, keys).entries;
      forall c | c in entries ensures exists i :: IsLastWith(items, i, keys, c) && entries[c] == items[i] {
        if ItemKeyOf(items[n], keys) == Some(c) {
          assert IsLastWith(items, n, keys, c);
        } else {
          var i :| IsLastWith(items[..n], i, keys, c) && before[c] == items[..n][i];
          LastWithFurther(items, i, keys, c);
        }
      }
    }
  }

  lemma LastWithFurther(items: seq<Value>, i: int, keys: seq<string>, c: string)
    requires items != [] && ItemKeyOf(items[|items| - 1], keys) != Some(c)
    requires IsLastWith(items[..|items| - 1], i, keys, c)
    ensures IsLastWith(items, i, keys, c)
  {
    var init := items[..|items| - 1];
    assert forall j :: 0 <= j < |init| ==> init[j] == items[j];
  }

  /** Building the index fails exactly when an object of the patch list has no usable key; otherwise it
      holds, under each key that occurs, the last object with that key. */
  lemma PatchIndexMeaning(items: seq<Value>, keys: seq<string>)
    ensures var r := PatchIndex(items, keys);
            && (r.IndexError? <==> exists i :: 0 <= i < |items| && Keyless(items[i], keys))
            && (r.Index? ==> r.entries.Keys == OriginalKeys(items, keys))
            && (r.Index? ==> forall c :: c in r.entries ==> exists i :: IsLastWith(items, i, keys, c) && r.entries[c] == items[i])
  {
    PatchIndexFails(items, keys);
    if PatchIndex(items, keys).Index? {
      PatchIndexHolds(items, keys);
    }
  }

  lemma IndexOfOne(item: Value, keys: seq<string>, list: Value, k: string)
    requires list == List([item]) && item.Obj? && CompositeKey(item.fields, keys) == Key(k) && k != ""
    ensures PatchIndex(list.items, keys) == Index(map[k := item])
  {
    assert list.items[..0] == [];
  }

  ghost predicate IsLastWith(items: seq<Value>, i: int, keys: seq<string>, c: string) {
    && 0 <= i < |items|
    && ItemKeyOf(items[i], keys) == Some(c)
    && forall j :: i < j < |items| ==> ItemKeyOf(items[j], keys) != Some(c)
  }

  // ---- lists whose items all have distinct keys ----

  ghost predicate AllKeyed(items: seq<Value>, keys: seq<string>) {
    && (forall i :: 0 <= i < |items| ==> ItemKeyOf(items[i], keys).Some?)
    && (forall i, j :: 0 <= i < j < |items| ==> ItemKeyOf(items[i], keys) != ItemKeyOf(items[j], keys))
  }

  ghost function KeysInOrder(items: seq<Value>, keys: seq<string>): (r: seq<string>)
    requires AllKeyed(items, keys)
    ensures |r| == |items| && NoRepeats(r)
    ensures forall i :: 0 <= i < |items| ==> Some(r[i]) == ItemKeyOf(items[i], keys)
  {
    seq(|items|, i requires 0 <= i < |items| => ItemKeyOf(items[i], keys).value)
  }

  lemma AllKeyedInit(items: seq<Value>, keys: seq<string>)
    requires AllKeyed(items, keys) && items != []
    ensures AllKeyed(items[..|items| - 1], keys)
    ensures ItemKeyOf(items[|items| - 1], keys).value !in OriginalKeys(items[..|items| - 1], keys)
  {
    OriginalKeysMembers(items[..|items| - 1], keys, ItemKeyOf(items[|items| - 1], keys).value);
  }

  /** Every item stands under its key, and nothing else does. */
  ghost predicate StandsFor(m: map<string, Value>, items: seq<Value>, keys: seq<string>)
    requires AllKeyed(items, keys)
  {
    && m.Keys == OriginalKeys(items, keys)
    && forall i :: 0 <= i < |items| ==> ItemKeyOf(items[i], keys).value in m && m[ItemKeyOf(items[i], keys).value] == items[i]
  }

  lemma StandsForMore(m: map<string, Value>, items: seq<Value>, keys: seq<string>)
    requires AllKeyed(items, keys) && items != []
    requires AllKeyed(items[..|items| - 1], keys) && StandsFor(m, items[..|items| - 1], keys)
    ensures StandsFor(m[ItemKeyOf(items[|items| - 1], keys).value := items[|items| - 1]], items, keys)
  {
    var n := |items| - 1;
    var last := ItemKeyOf(items[n], keys).value;
    AllKeyedInit(items, keys);
    forall i | 0 <= i < n ensures ItemKeyOf(items[i], keys).value in m && m[ItemKeyOf(items[i], keys).value] == items[i] {
      assert items[..n][i] == items[i];
    }
  }

  /** The finite map such a list stands for. */
  ghost function AsMap(items: seq<Value>, keys: seq<string>): (m: map<string, Value>)
    requires AllKeyed(items, keys)
    ensures StandsFor(m, items, keys)
  {
    if items == [] then map[] else
    var n := |items| - 1;
    AllKeyedInit(items, keys);
    StandsForMore(AsMap(items[..n], keys), items, keys);
    AsMap(items[..n], keys)[ItemKeyOf(items[n], keys).value := items[n]]
  }

  /** A patch object that sets its key fields to scalars gives them to whatever it is merged into. */
  lemma MergeKeepsKey(models: Models, original: Value, patch: Value, schema: Option<Schema>, keys: seq<string>)
    requires IsMap(original) && IsMap(patch) && ScalarKeys(patch, keys)
    requires MergeObject(models, original, patch, schema).Merged?
    ensures ItemKeyOf(MergeObject(models, original, patch, schema).value, keys) == ItemKeyOf(patch, keys)
  {
    var merged := MergeObject(models, original, patch, schema).value;
    forall i | 0 <= i < |keys| ensures keys[i] in Fields(merged) && Fields(merged)[keys[i]] == Fields(patch)[keys[i]] {
      MergedLevel(models, original, patch, schema, keys[i]);
    }
    assert KeyParts(Fields(merged), keys) == KeyParts(Fields(patch), keys);
  }

  ghost predicate ScalarKeys(item: Value, keys: seq<string>)
    requires IsMap(item)
  {
    forall i :: 0 <= i < |keys| ==> keys[i] in Fields(item) && Hashable(Fields(item)[keys[i]])
  }

  // ---- main results ----

  /** The keys no original item has, in ascending order. */
  ghost function AddedKeys(original: seq<Value>, index: map<string, Value>, keys: seq<string>): (r: seq<string>)
    ensures forall c :: c in r <==> c in index && c !in OriginalKeys(original, keys)
    ensures Ascending(r)
  {
    SortedKeys(index.Keys - OriginalKeys(original, keys))
  }

  /** Original item i is at index i, kept or merged; behind the originals come, by ascending key, the
      entries whose key no original item has. */
  ghost predicate Conserved(models: Models, original: seq<Value>, index: map<string, Value>, keys: seq<string>,
                            itemSchema: Option<Schema>, result: seq<Value>)
    requires forall c :: c in index ==> IsMap(index[c])
  {
    var added := AddedKeys(original, index, keys);
    && |result| == |original| + |added|
    && (forall i :: 0 <= i < |original| ==> ItemResult(models, original, i, index, keys, itemSchema, result[i]))
    && (forall j :: 0 <= j < |added| ==> result[|original| + j] == index[added[j]])
  }

  lemma ItemsConserved(models: Models, original: seq<Value>, index: map<string, Value>, keys: seq<string>,
                       itemSchema: Option<Schema>, patch: Value)
    requires IndexOf(index, patch)
    requires MergeItems(models, original, index, keys, itemSchema, patch).ItemsMerged?
    ensures var merged := MergeItems(models, original, index, keys, itemSchema, patch);
            Conserved(models, original, index, keys, itemSchema, merged.items + NewItems(merged.rest))
  {
    MergeItemsExact(models, original, index, keys, itemSchema, patch);
    var merged := MergeItems(models, original, index, keys, itemSchema, patch);
    ConservedFrom(models, original, index, keys, itemSchema, merged.items, merged.rest);
  }

  lemma ConservedFrom(models: Models, original: seq<Value>, index: map<string, Value>, keys: seq<string>,
                      itemSchema: Option<Schema>, items: seq<Value>, rest: map<string, Value>)
    requires forall c :: c in index ==> IsMap(index[c])
    requires |items| == |original| && rest == index - OriginalKeys(original, keys)
    requires forall i :: 0 <= i < |original| ==> ItemResult(models, original, i, index, keys, itemSchema, items[i])
    ensures Conserved(models, original, index, keys, itemSchema, items + NewItems(rest))
  {
    assert rest.Keys == index.Keys - OriginalKeys(original, keys);
    var result := items + NewItems(rest);
    forall i | 0 <= i < |original| ensures ItemResult(models, original, i, index, keys, itemSchema, result[i]) {
      assert result[i] == items[i];
    }
  }

  /** Conservation: whenever a keyed merge gives a list, with or without partial errors and repeated keys. */
  lemma KeyedListConserves(models: Models, original: seq<Value>, patch: Value, keys: seq<string>, listSchema: Option<Schema>)
    requires IsList(patch) && keys != []
    requires MergeList(models, original, patch, MergeBy(keys), listSchema).Merged?
    ensures PatchIndex(Items(patch), keys).Index?
    ensures var result := MergeList(models, original, patch, MergeBy(keys), listSchema).value;
            IsList(result) &&
            Conserved(models, original, PatchIndex(Items(patch), keys).entries, keys, ItemSchema(listSchema), Items(result))
  {
    var index := PatchIndex(Items(patch), keys).entries;
    ItemsConserved(models, original, index, keys, ItemSchema(listSchema), patch);
  }

  /** Item i leaves no partial error: it has a key, and what it is merged with merges cleanly. */
  ghost predicate Clean(models: Models, original: seq<Value>, i: nat, index: map<string, Value>, keys: seq<string>,
                        itemSchema: Option<Schema>)
    requires i < |original| && (forall c :: c in index ==> IsMap(index[c]))
  {
    && ItemKeyOf(original[i], keys).Some?
    && (UsesEntry(original, i, index, keys) ==>
          var merged := MergeObject(models, original[i], index[ItemKeyOf(original[i], keys).value], itemSchema);
          merged.Merged? && merged.errors == multiset{})
  }

  /** The list merges without a partial error exactly when every original item is clean. */
  lemma {:induction false} CleanExactly(models: Models, original: seq<Value>, index: map<string, Value>, keys: seq<string>,
                                        itemSchema: Option<Schema>, patch: Value)
    requires IndexOf(index, patch)
    requires MergeItems(models, original, index, keys, itemSchema, patch).ItemsMerged?
    ensures MergeItems(models, original, index, keys, itemSchema, patch).errors == multiset{}
       <==> forall i :: 0 <= i < |original| ==> Clean(models, original, i, index, keys, itemSchema)
  {
    if original != [] {
      var n := |original| - 1;
      var front := original[..n];
      assert original[..n + 1] == original;
      MergeItemsStep(models, original, n, index, keys, itemSchema, patch);
      CleanExactly(models, front, index, keys, itemSchema, patch);
      MergeItemsExact(models, front, index, keys, itemSchema, patch);
      CleanLast(models, original, index, MergeItems(models, front, index, keys, itemSchema, patch).rest, keys, itemSchema, patch);
      CleanFront(models, original, front, index, keys, itemSchema);
    }
  }

  lemma CleanFront(models: Models, original: seq<Value>, front: seq<Value>, index: map<string, Value>, keys: seq<string>,
                   itemSchema: Option<Schema>)
    requires original != [] && front == original[..|original| - 1]
    requires forall c :: c in index ==> IsMap(index[c])
    ensures (forall i :: 0 <= i < |original| ==> Clean(models, original, i, index, keys, itemSchema)) <==>
            && Clean(models, original, |original| - 1, index, keys, itemSchema)
            && (forall i :: 0 <= i < |front| ==> Clean(models, front, i, index, keys, itemSchema))
  {
    forall i | 0 <= i < |front|
      ensures Clean(models, front, i, index, keys, itemSchema) <==> Clean(models, original, i, index, keys, itemSchema)
    {
      assert front[..i] == original[..i] && front[i] == original[i];
    }
  }

  lemma CleanLast(models: Models, original: seq<Value>, index: map<string, Value>, rest: map<string, Value>,
                  keys: seq<string>, itemSchema: Option<Schema>, patch: Value)
    requires original != [] && IndexOf(index, patch) && IndexOf(rest, patch)
    requires rest == index - OriginalKeys(original[..|original| - 1], keys)
    requires MergeItem(models, |original| - 1, original[|original| - 1], rest, keys, itemSchema, patch).Merged?
    ensures Clean(models, original, |original| - 1, index, keys, itemSchema) <==>
            MergeItem(models, |original| - 1, original[|original| - 1], rest, keys, itemSchema, patch).errors == multiset{}
  {
    SameKey(|original| - 1, original[|original| - 1], keys);
  }

  /** Position p of the result holds the entry of key c. */
  ghost predicate Holds(original: seq<Value>, index: map<string, Value>, keys: seq<string>, p: nat, c: string) {
    if p < |original| then UsesEntry(original, p, index, keys) && ItemKeyOf(original[p], keys) == Some(c)
    else p - |original| < |AddedKeys(original, index, keys)| && AddedKeys(original, index, keys)[p - |original|] == c
  }

  lemma KeyInPrefix(original: seq<Value>, keys: seq<string>, i: nat, n: nat)
    requires i < n <= |original| && ItemKeyOf(original[i], keys).Some?
    ensures ItemKeyOf(original[i], keys).value in OriginalKeys(original[..n], keys)
  {
    assert original[..n][i] == original[i];
    OriginalKeysMembers(original[..n], keys, ItemKeyOf(original[i], keys).value);
  }

  lemma {:induction false} FirstWith(original: seq<Value>, keys: seq<string>, c: string) returns (i: nat)
    requires c in OriginalKeys(original, keys)
    ensures i < |original| && ItemKeyOf(original[i], keys) == Some(c) && c !in OriginalKeys(original[..i], keys)
  {
    var n := |original| - 1;
    if c in OriginalKeys(original[..n], keys) {
      i := FirstWith(original[..n], keys, c);
      assert original[..n][..i] == original[..i];
    } else {
      i := n;
    }
  }

  /** No entry has two positions. */
  lemma HeldOnce(original: seq<Value>, index: map<string, Value>, keys: seq<string>, c: string, p: nat, q: nat)
    requires p <= q && Holds(original, index, keys, p, c) && Holds(original, index, keys, q, c)
    ensures p == q
  {
    if q < |original| {
      if p < q { KeyInPrefix(original, keys, p, q); }
    } else if p < |original| {
      assert original[..|original|] == original;
      assert c in AddedKeys(original, index, keys);
      KeyInPrefix(original, keys, p, |original|);
    } else {
      AscendingNoRepeats(AddedKeys(original, index, keys));
    }
  }

  /** Every entry of the patch index has exactly one position in the result. */
  lemma EachEntryUsedOnce(original: seq<Value>, index: map<string, Value>, keys: seq<string>, c: string) returns (p: nat)
    requires c in index
    ensures Holds(original, index, keys, p, c)
    ensures forall q: nat :: Holds(original, index, keys, q, c) ==> q == p
  {
    p := PositionOf(original, index, keys, c);
    forall q: nat | Holds(original, index, keys, q, c) ensures q == p {
      HeldOnce(original, index, keys, c, if p <= q then p else q, if p <= q then q else p);
    }
  }

  lemma PositionOf(original: seq<Value>, index: map<string, Value>, keys: seq<string>, c: string) returns (p: nat)
    requires c in index
    ensures Holds(original, index, keys, p, c)
  {
    if c in OriginalKeys(original, keys) {
      p := FirstWith(original, keys, c);
    } else {
      p := AddedPosition(original, index, keys, c);
    }
  }

  lemma PositionIn(s: seq<string>, c: string) returns (j: nat)
    requires c in s
    ensures j < |s| && s[j] == c
  {
    j :| 0 <= j < |s| && s[j] == c;
  }

  lemma AddedPosition(original: seq<Value>, index: map<string, Value>, keys: seq<string>, c: string) returns (p: nat)
    requires c in index && c !in OriginalKeys(original, keys)
    ensures Holds(original, index, keys, p, c)
  {
    var j := PositionIn(AddedKeys(original, index, keys), c);
    p := |original| + j;
  }

  /** The finite map a keyed merge stands for. */
  ghost function MapUnion(models: Models, original: map<string, Value>, patch: map<string, Value>,
                          itemSchema: Option<Schema>): map<string, Value>
    requires forall c :: c in original ==> IsMap(original[c])
    requires forall c :: c in patch ==> IsMap(patch[c])
  {
    map c | c in original.Keys + patch.Keys ::
      if c !in patch then original[c]
      else if c !in original then patch[c]
      else var merged := MergeObject(models, original[c], patch[c], itemSchema);
           if merged.Merged? then merged.value else patch[c]
  }

  ghost predicate ScalarKeyEntries(index: map<string, Value>, keys: seq<string>)
    requires forall c :: c in index ==> IsMap(index[c])
  {
    forall c :: c in index ==> ScalarKeys(index[c], keys) && ItemKeyOf(index[c], keys) == Some(c)
  }

  /** A kept or merged item keeps the key of the original item. */
  lemma KeptKey(models: Models, original: seq<Value>, i: nat, index: map<string, Value>, keys: seq<string>,
                itemSchema: Option<Schema>, item: Value)
    requires i < |original| && forall c :: c in index ==> IsMap(index[c])
    requires ScalarKeyEntries(index, keys) && ItemResult(models, original, i, index, keys, itemSchema, item)
    ensures ItemKeyOf(item, keys) == ItemKeyOf(original[i], keys)
  {
    if UsesEntry(original, i, index, keys) {
      MergeKeepsKey(models, original[i], index[ItemKeyOf(original[i], keys).value], itemSchema, keys);
    }
  }

  lemma AddedKey(original: seq<Value>, index: map<string, Value>, keys: seq<string>, j: nat)
    requires j < |AddedKeys(original, index, keys)| && forall c :: c in index ==> IsMap(index[c])
    requires ScalarKeyEntries(index, keys)
    ensures var c := AddedKeys(original, index, keys)[j];
            c in index && c !in OriginalKeys(original, keys) && ItemKeyOf(index[c], keys) == Some(c)
  {
    assert AddedKeys(original, index, keys)[j] in AddedKeys(original, index, keys);
  }

  /** Every position of the result keeps the key its item came with. */
  lemma ResultKey(models: Models, original: seq<Value>, index: map<string, Value>, keys: seq<string>,
                  itemSchema: Option<Schema>, result: seq<Value>, i: nat)
    requires forall c :: c in index ==> IsMap(index[c])
    requires ScalarKeyEntries(index, keys) && Conserved(models, original, index, keys, itemSchema, result)
    requires i < |result|
    ensures ItemKeyOf(result[i], keys)
         == if i < |original| then ItemKeyOf(original[i], keys) else Some(AddedKeys(original, index, keys)[i - |original|])
  {
    if i < |original| {
      KeptKey(models, original, i, index, keys, itemSchema, result[i]);
    } else {
      AddedKey(original, index, keys, i - |original|);
      assert result[|original| + (i - |original|)] == result[i];
    }
  }

  /** The keys of the result are distinct: the original's in their order, then the new ones. */
  lemma ResultKeysInOrder(models: Models, original: seq<Value>, index: map<string, Value>, keys: seq<string>,
                          itemSchema: Option<Schema>, result: seq<Value>)
    requires forall c :: c in index ==> IsMap(index[c])
    requires AllKeyed(original, keys) && ScalarKeyEntries(index, keys)
    requires Conserved(models, original, index, keys, itemSchema, result)
    ensures AllKeyed(result, keys)
    ensures KeysInOrder(result, keys) == KeysInOrder(original, keys) + AddedKeys(original, index, keys)
  {
    var inOrder := KeysInOrder(original, keys) + AddedKeys(original, index, keys);
    forall i | 0 <= i < |result| ensures ItemKeyOf(result[i], keys) == Some(inOrder[i]) {
      ResultKey(models, original, index, keys, itemSchema, result, i);
    }
    forall c | c in AddedKeys(original, index, keys) ensures c !in KeysInOrder(original, keys) {
      AsMapOf(original, keys, c);
    }
    NoRepeatsTogether(KeysInOrder(original, keys), AddedKeys(original, index, keys));
    KeyedBy(result, keys, inOrder);
  }

  lemma NoRepeatsTogether(a: seq<string>, b: seq<string>)
    requires NoRepeats(a) && Ascending(b) && forall c :: c in b ==> c !in a
    ensures NoRepeats(a + b)
  {
    AscendingNoRepeats(b);
    forall i, j | 0 <= i < j < |a + b| ensures (a + b)[i] != (a + b)[j] {
      if i < |a| <= j {
        assert (a + b)[j] in b;
      }
    }
  }

  lemma KeyedBy(items: seq<Value>, keys: seq<string>, inOrder: seq<string>)
    requires |items| == |inOrder| && NoRepeats(inOrder)
    requires forall i :: 0 <= i < |items| ==> ItemKeyOf(items[i], keys) == Some(inOrder[i])
    ensures AllKeyed(items, keys) && KeysInOrder(items, keys) == inOrder
  {
    forall i, j | 0 <= i < j < |items| ensures ItemKeyOf(items[i], keys) != ItemKeyOf(items[j], keys) {
      assert inOrder[i] != inOrder[j];
    }
  }

  lemma AsMapOf(items: seq<Value>, keys: seq<string>, c: string)
    requires AllKeyed(items, keys)
    ensures c in AsMap(items, keys) <==> c in KeysInOrder(items, keys)
    ensures c in AsMap(items, keys) ==> IsMap(AsMap(items, keys)[c])
  {
    OriginalKeysMembers(items, keys, c);
    var inOrder := KeysInOrder(items, keys);
    assert forall i :: 0 <= i < |items| ==> (ItemKeyOf(items[i], keys) == Some(c) <==> inOrder[i] == c);
  }

  /** With distinct keys on the original side the merge is the union of finite maps, merging what both have. */
  lemma ConservedIsMapUnion(models: Models, original: seq<Value>, index: map<string, Value>, keys: seq<string>,
                            itemSchema: Option<Schema>, result: seq<Value>)
    requires forall c :: c in index ==> IsMap(index[c])
    requires AllKeyed(original, keys) && ScalarKeyEntries(index, keys)
    requires Conserved(models, original, index, keys, itemSchema, result)
    ensures AllKeyed(result, keys)
    ensures forall c :: c in AsMap(original, keys) ==> IsMap(AsMap(original, keys)[c])
    ensures AsMap(result, keys) == MapUnion(models, AsMap(original, keys), index, itemSchema)
  {
    ResultKeysInOrder(models, original, index, keys, itemSchema, result);
    HoldsMaps(original, keys);
    UnionKeys(models, original, index, keys, itemSchema, result);
    UnionValues(models, original, index, keys, itemSchema, result);
    SameMap(AsMap(result, keys), MapUnion(models, AsMap(original, keys), index, itemSchema));
  }

  lemma SameMap(a: map<string, Value>, b: map<string, Value>)
    requires a.Keys == b.Keys && forall c :: c in a ==> a[c] == b[c]
    ensures a == b
  {
  }

  lemma HoldsMaps(items: seq<Value>, keys: seq<string>)
    requires AllKeyed(items, keys)
    ensures forall c :: c in AsMap(items, keys) ==> IsMap(AsMap(items, keys)[c])
  {
    forall c | c in AsMap(items, keys) ensures IsMap(AsMap(items, keys)[c]) {
      AsMapOf(items, keys, c);
    }
  }

  lemma UnionValues(models: Models, original: seq<Value>, index: map<string, Value>, keys: seq<string>,
                    itemSchema: Option<Schema>, result: seq<Value>)
    requires forall k :: k in index ==> IsMap(index[k])
    requires AllKeyed(original, keys) && ScalarKeyEntries(index, keys) && AllKeyed(result, keys)
    requires Conserved(models, original, index, keys, itemSchema, result)
    requires forall k :: k in AsMap(original, keys) ==> IsMap(AsMap(original, keys)[k])
    requires AsMap(result, keys).Keys == MapUnion(models, AsMap(original, keys), index, itemSchema).Keys
    ensures forall c :: c in AsMap(result, keys) ==>
              AsMap(result, keys)[c] == MapUnion(models, AsMap(original, keys), index, itemSchema)[c]
  {
    forall c | c in AsMap(result, keys)
      ensures AsMap(result, keys)[c] == MapUnion(models, AsMap(original, keys), index, itemSchema)[c]
    {
      UnionAt(models, original, index, keys, itemSchema, result, c);
    }
  }

  lemma UnionKeys(models: Models, original: seq<Value>, index: map<string, Value>, keys: seq<string>,
                  itemSchema: Option<Schema>, result: seq<Value>)
    requires forall c :: c in index ==> IsMap(index[c])
    requires AllKeyed(original, keys) && AllKeyed(result, keys)
    requires KeysInOrder(result, keys) == KeysInOrder(original, keys) + AddedKeys(original, index, keys)
    requires forall c :: c in AsMap(original, keys) ==> IsMap(AsMap(original, keys)[c])
    ensures AsMap(result, keys).Keys == MapUnion(models, AsMap(original, keys), index, itemSchema).Keys
  {
    forall c ensures c in AsMap(result, keys) <==> c in AsMap(original, keys) || c in index {
      AsMapOf(result, keys, c);
      AsMapOf(original, keys, c);
    }
  }

  lemma UnionAt(models: Models, original: seq<Value>, index: map<string, Value>, keys: seq<string>,
                itemSchema: Option<Schema>, result: seq<Value>, c: string)
    requires forall k :: k in index ==> IsMap(index[k])
    requires AllKeyed(original, keys) && ScalarKeyEntries(index, keys) && AllKeyed(result, keys)
    requires Conserved(models, original, index, keys, itemSchema, result)
    requires forall k :: k in AsMap(original, keys) ==> IsMap(AsMap(original, keys)[k])
    requires c in AsMap(result, keys)
    ensures c in MapUnion(models, AsMap(original, keys), index, itemSchema)
    ensures AsMap(result, keys)[c] == MapUnion(models, AsMap(original, keys), index, itemSchema)[c]
  {
    var i := PositionWith(result, keys, c);
    ResultKey(models, original, index, keys, itemSchema, result, i);
    if i < |original| {
      UnionAtOriginal(models, original, index, keys, itemSchema, i, result[i]);
    } else {
      UnionAtAdded(models, original, index, keys, itemSchema, i - |original|);
      assert result[|original| + (i - |original|)] == result[i];
    }
  }

  lemma PositionWith(items: seq<Value>, keys: seq<string>, c: string) returns (i: nat)
    requires AllKeyed(items, keys) && c in AsMap(items, keys)
    ensures i < |items| && ItemKeyOf(items[i], keys) == Some(c) && AsMap(items, keys)[c] == items[i]
  {
    OriginalKeysMembers(items, keys, c);
    i :| 0 <= i < |items| && ItemKeyOf(items[i], keys) == Some(c);
    assert AsMap(items, keys)[ItemKeyOf(items[i], keys).value] == items[i];
  }

  lemma UnionAtAdded(models: Models, original: seq<Value>, index: map<string, Value>, keys: seq<string>,
                     itemSchema: Option<Schema>, j: nat)
    requires forall k :: k in index ==> IsMap(index[k])
    requires AllKeyed(original, keys) && ScalarKeyEntries(index, keys) && j < |AddedKeys(original, index, keys)|
    requires forall k :: k in AsMap(original, keys) ==> IsMap(AsMap(original, keys)[k])
    ensures var c := AddedKeys(original, index, keys)[j];
            && ItemKeyOf(index[c], keys) == Some(c)
            && c in MapUnion(models, AsMap(original, keys), index, itemSchema)
            && MapUnion(models, AsMap(original, keys), index, itemSchema)[c] == index[c]
  {
    var c := AddedKeys(original, index, keys)[j];
    assert c in AddedKeys(original, index, keys);
    assert c !in AsMap(original, keys);
  }

  lemma UnionAtOriginal(models: Models, original: seq<Value>, index: map<string, Value>, keys: seq<string>,
                        itemSchema: Option<Schema>, i: nat, item: Value)
    requires forall k :: k in index ==> IsMap(index[k])
    requires AllKeyed(original, keys) && i < |original|
    requires ItemResult(models, original, i, index, keys, itemSchema, item)
    requires forall k :: k in AsMap(original, keys) ==> IsMap(AsMap(original, keys)[k])
    ensures ItemKeyOf(original[i], keys).value in MapUnion(models, AsMap(original, keys), index, itemSchema)
    ensures MapUnion(models, AsMap(original, keys), index, itemSchema)[ItemKeyOf(original[i], keys).value] == item
  {
    UsedWhenPresent(original, index, keys, i);
    var c := ItemKeyOf(original[i], keys).value;
    assert c in AsMap(original, keys) && AsMap(original, keys)[c] == original[i];
  }

  lemma UsedWhenPresent(original: seq<Value>, index: map<string, Value>, keys: seq<string>, i: nat)
    requires AllKeyed(original, keys) && i < |original|
    ensures UsesEntry(original, i, index, keys) <==> ItemKeyOf(original[i], keys).value in index
  {
    OriginalKeysMembers(original[..i], keys, ItemKeyOf(original[i], keys).value);
    assert forall j :: 0 <= j < i ==> original[..i][j] == original[j];
  }

  /** The same, of the merge itself. */
  lemma KeyedListIsMapUnion(models: Models, original: seq<Value>, patch: Value, keys: seq<string>, listSchema: Option<Schema>)
    requires IsList(patch) && keys != [] && AllKeyed(original, keys)
    requires forall i :: 0 <= i < |Items(patch)| && IsMap(Items(patch)[i]) ==> ScalarKeys(Items(patch)[i], keys)
    requires MergeList(models, original, patch, MergeBy(keys), listSchema).Merged?
    ensures PatchIndex(Items(patch), keys).Index?
    ensures forall c :: c in AsMap(original, keys) ==> IsMap(AsMap(original, keys)[c])
    ensures var index := PatchIndex(Items(patch), keys).entries;
            var result := MergeList(models, original, patch, MergeBy(keys), listSchema).value;
            && IsList(result) && AllKeyed(Items(result), keys)
            && KeysInOrder(Items(result), keys) == KeysInOrder(original, keys) + AddedKeys(original, index, keys)
            && AsMap(Items(result), keys) == MapUnion(models, AsMap(original, keys), index, ItemSchema(listSchema))
  {
    KeyedListConserves(models, original, patch, keys, listSchema);
    PatchIndexMeaning(Items(patch), keys);
    var index := PatchIndex(Items(patch), keys).entries;
    var result := Items(MergeList(models, original, patch, MergeBy(keys), listSchema).value);
    ResultKeysInOrder(models, original, index, keys, ItemSchema(listSchema), result);
    ConservedIsMapUnion(models, original, index, keys, ItemSchema(listSchema), result);
  }
}
