/** What %v prints, and which items of a keyed list it tells apart. */
module ShownKeys {
  import opened Options
  import opened Strings
  import opened GoValues
  import opened KeyedLists
  import opened MergeEngine

  // ---- scalars ----

  ghost predicate Prints(v: Value, text: string) {
    || v == Str(text)
    || v == Num(text)
    || (v == Bool(true) && text == "true")
    || (v == Bool(false) && text == "false")
    || (v == Null && text == "<nil>")
  }

  /** Scalars that print the same: equal ones, and a text with what another kind prints. */
  ghost predicate Alike(a: Value, b: Value) {
    exists text :: Prints(a, text) && Prints(b, text)
  }

  ghost predicate SameKind(a: Value, b: Value) {
    (a.Str? && b.Str?) || (a.Num? && b.Num?) || (a.Bool? && b.Bool?) || (a.Null? && b.Null?)
  }

  lemma ScalarPrints(v: Value, text: string)
    requires Hashable(v)
    ensures Prints(v, text) <==> Show(v) == text
  {
  }

  lemma AlikeExactly(a: Value, b: Value)
    requires Hashable(a) && Hashable(b)
    ensures Alike(a, b) <==> Show(a) == Show(b)
    ensures SameKind(a, b) ==> (Alike(a, b) <==> a == b)
  {
    ScalarPrints(a, Show(a));
    ScalarPrints(b, Show(a));
    assert "true"[0] != "false"[0];
  }

  /** The item has the key fields, all scalars printed without ':'. */
  ghost predicate ScalarFields(item: map<string, Value>, keys: seq<string>) {
    forall i :: 0 <= i < |keys| ==> keys[i] in item && Hashable(item[keys[i]]) && NoColon(item[keys[i]])
  }

  ghost predicate NoColon(v: Value) {
    (v.Str? ==> ':' !in v.s) && (v.Num? ==> ':' !in v.text)
  }

  /** The composite key of an item is what its key fields print, joined. */
  lemma KeyIsPrinted(item: map<string, Value>, keys: seq<string>, texts: seq<string>)
    requires |texts| == |keys| && forall i :: 0 <= i < |keys| ==> keys[i] in item && Prints(item[keys[i]], texts[i])
    ensures CompositeKey(item, keys) == Key(Join(texts, "::"))
  {
    forall i | 0 <= i < |keys| ensures Show(item[keys[i]]) == texts[i] {
      ScalarPrints(item[keys[i]], texts[i]);
    }
    assert KeyParts(item, keys) == texts;
  }

  /** For scalars printed without ':' the composite key tells apart exactly what prints differently in some key field;
      so numbers, or texts, or booleans, are told apart exactly when they differ. */
  lemma ScalarKeysExactly(a: map<string, Value>, b: map<string, Value>, keys: seq<string>)
    requires ScalarFields(a, keys) && ScalarFields(b, keys)
    ensures CompositeKey(a, keys) == CompositeKey(b, keys) <==>
            forall i :: 0 <= i < |keys| ==> Alike(a[keys[i]], b[keys[i]])
    ensures (forall i :: 0 <= i < |keys| ==> SameKind(a[keys[i]], b[keys[i]])) ==>
            (CompositeKey(a, keys) == CompositeKey(b, keys) <==> forall i :: 0 <= i < |keys| ==> a[keys[i]] == b[keys[i]])
  {
    var p, q := KeyParts(a, keys), KeyParts(b, keys);
    forall i | 0 <= i < |keys|
      ensures Separable(p[i]) && Separable(q[i])
      ensures p[i] == q[i] <==> Alike(a[keys[i]], b[keys[i]])
      ensures SameKind(a[keys[i]], b[keys[i]]) ==> (Alike(a[keys[i]], b[keys[i]]) <==> a[keys[i]] == b[keys[i]])
    {
      AlikeExactly(a[keys[i]], b[keys[i]]);
      PrintsNoColon(a[keys[i]]);
      PrintsNoColon(b[keys[i]]);
    }
    JoinInjective(p, q);
    assert p == q <==> forall i :: 0 <= i < |keys| ==> p[i] == q[i];
  }

  lemma PrintsNoColon(v: Value)
    requires Hashable(v) && NoColon(v)
    ensures Separable(Show(v))
  {
    assert ':' !in Show(v);
    NoColonSeparable(Show(v));
  }

  /** Different kinds share a key: 80 and "80", true and "true", null and "<nil>". */
  lemma KindsShareKeys(k: string, number: string)
    ensures CompositeKey(map[k := Num(number)], [k]) == CompositeKey(map[k := Str(number)], [k]) == Key(number)
    ensures CompositeKey(map[k := Bool(true)], [k]) == CompositeKey(map[k := Str("true")], [k]) == Key("true")
    ensures CompositeKey(map[k := Bool(false)], [k]) == CompositeKey(map[k := Str("false")], [k]) == Key("false")
    ensures CompositeKey(map[k := Null], [k]) == CompositeKey(map[k := Str("<nil>")], [k]) == Key("<nil>")
  {
    KeyIsPrinted(map[k := Num(number)], [k], [number]);
    KeyIsPrinted(map[k := Str(number)], [k], [number]);
    KeyIsPrinted(map[k := Bool(true)], [k], ["true"]);
    KeyIsPrinted(map[k := Str("true")], [k], ["true"]);
    KeyIsPrinted(map[k := Bool(false)], [k], ["false"]);
    KeyIsPrinted(map[k := Str("false")], [k], ["false"]);
    KeyIsPrinted(map[k := Null], [k], ["<nil>"]);
    KeyIsPrinted(map[k := Str("<nil>")], [k], ["<nil>"]);
  }

  // ---- a patch list by one number ----

  ghost predicate Numbered(items: seq<Value>, k: string) {
    forall i :: 0 <= i < |items| ==> HasNumber(items[i], k)
  }

  ghost predicate HasNumber(item: Value, k: string) {
    IsMap(item) && k in Fields(item) && Fields(item)[k].Num? && Fields(item)[k].text != ""
  }

  ghost function NumberOf(item: Value, k: string): string
    requires HasNumber(item, k)
  {
    Fields(item)[k].text
  }

  /** Merged by one number field, every number of the patch list has an entry of its own, the last item with it. */
  lemma NumberIndex(items: seq<Value>, k: string)
    requires Numbered(items, k)
    ensures var r := PatchIndex(items, [k]);
            && r.Index?
            && (forall i :: 0 <= i < |items| ==> NumberOf(items[i], k) in r.entries)
            && (forall n :: n in r.entries ==> exists i :: IsNumbered(items, i, k, n) && LastWithNumber(items, i, k) && r.entries[n] == items[i])
  {
    var r := PatchIndex(items, [k]);
    forall i | 0 <= i < |items| ensures ItemKeyOf(items[i], [k]) == Some(NumberOf(items[i], k)) && !Keyless(items[i], [k]) {
      KeyIsPrinted(Fields(items[i]), [k], [NumberOf(items[i], k)]);
    }
    PatchIndexMeaning(items, [k]);
    forall i | 0 <= i < |items| ensures NumberOf(items[i], k) in r.entries {
      OriginalKeysMembers(items, [k], NumberOf(items[i], k));
    }
    forall n | n in r.entries
      ensures exists i :: IsNumbered(items, i, k, n) && LastWithNumber(items, i, k) && r.entries[n] == items[i]
    {
      var i :| IsLastWith(items, i, [k], n) && r.entries[n] == items[i];
      assert IsNumbered(items, i, k, n) && LastWithNumber(items, i, k);
    }
  }

  ghost predicate IsNumbered(items: seq<Value>, i: int, k: string, n: string)
    requires Numbered(items, k)
  {
    0 <= i < |items| && Fields(items[i])[k] == Num(n)
  }

  ghost predicate LastWithNumber(items: seq<Value>, i: nat, k: string)
    requires Numbered(items, k) && i < |items|
  {
    forall j :: i < j < |items| ==> NumberOf(items[j], k) != NumberOf(items[i], k)
  }

  /** So no item is lost when their numbers differ. */
  lemma NumbersKept(items: seq<Value>, k: string)
    requires Numbered(items, k)
    requires forall i, j :: 0 <= i < j < |items| ==> Fields(items[i])[k] != Fields(items[j])[k]
    ensures PatchIndex(items, [k]).Index?
    ensures forall x :: x in items <==> x in PatchIndex(items, [k]).entries.Values
  {
    NumberIndex(items, k);
    var entries := PatchIndex(items, [k]).entries;
    forall i | 0 <= i < |items| ensures items[i] in entries.Values {
      var n := NumberOf(items[i], k);
      var j :| IsNumbered(items, j, k, n) && entries[n] == items[j];
      assert i == j;
    }
  }

  // ---- containers ----

  /** A list prints its items in brackets, separated by spaces. */
  lemma ListPrints(list: Value)
    requires list.List?
    ensures Show(list) == "[" + Join(Shown(list.items), " ") + "]"
  {
    ItemsPrinted(list, |list.items|);
    assert list.items[..|list.items|] == list.items;
  }

  ghost function Shown(items: seq<Value>): (r: seq<string>)
    ensures |r| == |items| && forall i :: 0 <= i < |items| ==> r[i] == Show(items[i])
  {
    seq(|items|, i requires 0 <= i < |items| => Show(items[i]))
  }

  lemma {:induction false} ItemsPrinted(list: Value, n: nat)
    requires list.List? && n <= |list.items|
    ensures ShowItems(list, n) == Join(Shown(list.items[..n]), " ")
  {
    if n == 1 {
      assert Shown(list.items[..1]) == [Show(list.items[0])];
    } else if n > 1 {
      ItemsPrinted(list, n - 1);
      var front := Shown(list.items[..n - 1]);
      assert Shown(list.items[..n]) == front + [Show(list.items[n - 1])];
      JoinAppend(front, Show(list.items[n - 1]));
    }
  }

  lemma {:induction false} JoinAppend(parts: seq<string>, last: string)
    requires parts != []
    ensures Join(parts + [last], " ") == Join(parts, " ") + " " + last
  {
    if |parts| == 1 {
      assert (parts + [last])[1..] == [last];
    } else {
      JoinAppend(parts[1..], last);
      assert (parts + [last])[1..] == parts[1..] + [last];
    }
  }

  /** An object prints "map[", its fields as key:value by ascending key, separated by spaces, and "]". */
  lemma ObjectPrints(obj: Value, keys: seq<string>)
    requires obj.Obj? && Ascending(keys) && forall k :: k in keys <==> k in obj.fields
    ensures Show(obj) == "map[" + Join(ShownFields(obj, keys), " ") + "]"
  {
    AscendingUnique(keys, SortedKeys(obj.fields.Keys));
    FieldsPrinted(obj, keys);
  }

  /** Nil containers print as empty ones. */
  lemma NilsPrint()
    ensures Show(NilList) == Show(List([])) == "[]" && Show(NilObj) == Show(Obj(map[])) == "map[]"
  {
  }

  ghost function ShownFields(obj: Value, keys: seq<string>): (r: seq<string>)
    requires obj.Obj? && forall k :: k in keys ==> k in obj.fields
    ensures |r| == |keys| && forall i :: 0 <= i < |keys| ==> r[i] == keys[i] + ":" + Show(obj.fields[keys[i]])
  {
    seq(|keys|, i requires 0 <= i < |keys| => keys[i] + ":" + Show(obj.fields[keys[i]]))
  }

  lemma {:induction false} FieldsPrinted(obj: Value, keys: seq<string>)
    requires obj.Obj? && forall k :: k in keys ==> k in obj.fields
    ensures ShowFields(obj, keys) == Join(ShownFields(obj, keys), " ")
  {
    if |keys| > 1 {
      FieldsPrinted(obj, keys[1..]);
      assert ShownFields(obj, keys)[1..] == ShownFields(obj, keys[1..]);
    }
  }
}
