/** Go's dynamic JSON values (nil, bool, float64, string, []interface{}, map[string]interface{}),
    the deep copy through gob and the in-place rewrite of nil containers that follows it. */
module GoValues {

  /** A value held in an interface{}. Num carries the text that %v prints for the float64.
      NilList and NilObj are typed nil containers: they are lists and maps, but serialize to null. */
  datatype Value =
    | Null
    | Bool(b: bool)
    | Num(text: string)
    | Str(s: string)
    | List(items: seq<Value>)
    | Obj(fields: map<string, Value>)
    | NilList
    | NilObj

  predicate IsMap(v: Value) {
    v.Obj? || v.NilObj?
  }

  predicate IsList(v: Value) {
    v.List? || v.NilList?
  }

  function Fields(v: Value): map<string, Value>
    requires IsMap(v)
  {
    if v.Obj? then v.fields else map[]
  }

  function Items(v: Value): seq<Value>
    requires IsList(v)
  {
    if v.List? then v.items else []
  }

  /** Values that JSON decoding can produce: no nil container anywhere. */
  ghost predicate IsJson(v: Value) {
    match v
    case NilList => false
    case NilObj => false
    case List(items) => forall i :: 0 <= i < |items| ==> IsJson(items[i])
    case Obj(fields) => forall k :: k in fields ==> IsJson(fields[k])
    case _ => true
  }

  /** What gob hands back: an empty list arrives as a nil list, a nil map as an empty one. */
  function GobCopy(v: Value): Value {
    match v
    case NilObj => Obj(map[])
    case List(items) =>
      if items == [] then NilList
      else List(seq(|items|, i requires 0 <= i < |items| => GobCopy(items[i])))
    case Obj(fields) => Obj(map k | k in fields :: GobCopy(fields[k]))
    case _ => v
  }

  /** What SanitizeNils leaves in an object field that held v. */
  function Sanitized(v: Value): Value {
    match v
    case NilList => List([])
    case NilObj => Obj(map[])
    case List(items) => List(seq(|items|, i requires 0 <= i < |items| => SanitizedItem(items[i])))
    case Obj(fields) => Obj(map k | k in fields :: Sanitized(fields[k]))
    case _ => v
  }

  /** What it leaves at a list position, or returns for its argument: only non-nil maps are entered. */
  function SanitizedItem(v: Value): Value {
    if v.Obj? then Obj(map k | k in v.fields :: Sanitized(v.fields[k])) else v
  }

  method SanitizeNils(m: Value) returns (r: Value)
    requires IsMap(m)
    ensures r == SanitizedItem(m)
    decreases m
  {
    if m.NilObj? {
      return m;
    }
    var fields, todo := m.fields, m.fields.Keys;
    while todo != {}
      invariant todo <= m.fields.Keys
      invariant fields == map k | k in m.fields :: if k in todo then m.fields[k] else Sanitized(m.fields[k])
    {
      var k :| k in todo;
      match fields[k] {
        case NilObj => fields := fields[k := Obj(map[])];
        case Obj(_) =>
          var sub := SanitizeNils(m.fields[k]);
          fields := fields[k := sub];
        case NilList => fields := fields[k := List([])];
        case List(items) =>
          var subList := SanitizeItems(m.fields[k]);
          fields := fields[k := List(subList)];
        case _ =>
      }
      todo := todo - {k};
    }
    r := Obj(fields);
  }

  /** The loop over the elements of one list field. */
  method SanitizeItems(list: Value) returns (subList: seq<Value>)
    requires list.List?
    ensures List(subList) == Sanitized(list)
    decreases list
  {
    subList := list.items;
    for i := 0 to |list.items|
      invariant |subList| == |list.items|
      invariant forall j :: 0 <= j < i ==> subList[j] == SanitizedItem(list.items[j])
      invariant forall j :: i <= j < |subList| ==> subList[j] == list.items[j]
    {
      if IsMap(subList[i]) {
        var item := SanitizeNils(list.items[i]);
        subList := subList[i := item];
      }
    }
  }

  // ---- what SanitizeNils promises ----

  /** No nil container in v itself or in any object field reachable from it through objects and
      through lists of objects. */
  ghost predicate NoNilFields(v: Value) {
    match v
    case NilList => false
    case NilObj => false
    case List(items) => forall i :: 0 <= i < |items| && items[i].Obj? ==> NoNilFields(items[i])
    case Obj(fields) => forall k :: k in fields ==> NoNilFields(fields[k])
    case _ => true
  }

  lemma {:induction false} SanitizedHasNoNilFields(v: Value)
    ensures NoNilFields(Sanitized(v))
  {
    match v
    case List(items) =>
      forall i | 0 <= i < |items| && SanitizedItem(items[i]).Obj? ensures NoNilFields(SanitizedItem(items[i])) {
        SanitizedHasNoNilFields(items[i]);
      }
    case Obj(fields) =>
      forall k | k in fields ensures NoNilFields(Sanitized(fields[k])) {
        SanitizedHasNoNilFields(fields[k]);
      }
    case _ =>
  }

  /** The rewrite changes nothing exactly when there is nothing to fill; so a second run is a no-op. */
  lemma {:induction false} SanitizedIsNoOp(v: Value)
    ensures Sanitized(v) == v <==> NoNilFields(v)
  {
    match v
    case List(items) =>
      forall i | 0 <= i < |items| ensures SanitizedItem(items[i]) == items[i] <==> items[i].Obj? ==> NoNilFields(items[i]) {
        SanitizedIsNoOp(items[i]);
      }
      if NoNilFields(v) {
        assert Sanitized(v).items == items;
      } else {
        var i :| 0 <= i < |items| && items[i].Obj? && !NoNilFields(items[i]);
        assert Sanitized(v).items[i] != items[i];
      }
    case Obj(fields) =>
      forall k | k in fields ensures Sanitized(fields[k]) == fields[k] <==> NoNilFields(fields[k]) {
        SanitizedIsNoOp(fields[k]);
      }
      if NoNilFields(v) {
        assert Sanitized(v).fields == fields;
      } else {
        var k :| k in fields && !NoNilFields(fields[k]);
        assert Sanitized(v).fields[k] != fields[k];
      }
    case _ =>
  }

  /** v with every nil container replaced by an empty one, at any depth. */
  ghost function Filled(v: Value): Value {
    match v
    case NilList => List([])
    case NilObj => Obj(map[])
    case List(items) => List(seq(|items|, i requires 0 <= i < |items| => Filled(items[i])))
    case Obj(fields) => Obj(map k | k in fields :: Filled(fields[k]))
    case _ => v
  }

  /** Nothing but the nil-ness of containers is ever changed, by the rewrite or by the copy. */
  lemma {:induction false} OnlyNilnessChanges(v: Value)
    ensures Filled(Sanitized(v)) == Filled(v) && Filled(GobCopy(v)) == Filled(v)
  {
    match v
    case List(items) =>
      forall i | 0 <= i < |items|
        ensures Filled(SanitizedItem(items[i])) == Filled(items[i]) && Filled(GobCopy(items[i])) == Filled(items[i])
      {
        OnlyNilnessChanges(items[i]);
      }
      assert Filled(Sanitized(v)).items == Filled(v).items;
      assert items != [] ==> Filled(GobCopy(v)).items == Filled(v).items;
    case Obj(fields) =>
      forall k | k in fields
        ensures Filled(Sanitized(fields[k])) == Filled(fields[k]) && Filled(GobCopy(fields[k])) == Filled(fields[k])
      {
        OnlyNilnessChanges(fields[k]);
      }
      assert Filled(Sanitized(v)).fields == Filled(v).fields;
      assert Filled(GobCopy(v)).fields == Filled(v).fields;
    case _ =>
  }

  /** A value written to JSON and read again: a nil container is written as null. */
  function Reread(v: Value): Value {
    match v
    case NilList => Null
    case NilObj => Null
    case List(items) => List(seq(|items|, i requires 0 <= i < |items| => Reread(items[i])))
    case Obj(fields) => Obj(map k | k in fields :: Reread(fields[k]))
    case _ => v
  }

  /** Exactly the values without a nil container survive. */
  lemma {:induction false} RereadIsNoOp(v: Value)
    ensures Reread(v) == v <==> IsJson(v)
  {
    match v
    case List(items) =>
      forall i | 0 <= i < |items| ensures Reread(items[i]) == items[i] <==> IsJson(items[i]) {
        RereadIsNoOp(items[i]);
      }
      if IsJson(v) {
        assert Reread(v).items == items;
      } else {
        var i :| 0 <= i < |items| && !IsJson(items[i]);
        assert Reread(v).items[i] != items[i];
      }
    case Obj(fields) =>
      forall k | k in fields ensures Reread(fields[k]) == fields[k] <==> IsJson(fields[k]) {
        RereadIsNoOp(fields[k]);
      }
      if IsJson(v) {
        assert Reread(v).fields == fields;
      } else {
        var k :| k in fields && !IsJson(fields[k]);
        assert Reread(v).fields[k] != fields[k];
      }
    case _ =>
  }

  // ---- copy followed by rewrite, as every merge starts ----

  /** A field value, and a list item, after DeepCopyMap and SanitizeNils ran on the object around it. */
  function Copied(v: Value): Value {
    Sanitized(GobCopy(v))
  }

  function CopiedItem(v: Value): Value {
    SanitizedItem(GobCopy(v))
  }

  function CopiedItems(items: seq<Value>): (r: seq<Value>)
    ensures |r| == |items|
    ensures forall i :: 0 <= i < |r| ==> r[i] == CopiedItem(items[i])
  {
    seq(|items|, i requires 0 <= i < |items| => CopiedItem(items[i]))
  }

  /** The fields a merge of the object o starts from. */
  function Base(o: Value): map<string, Value>
    requires IsMap(o)
  {
    map k | k in Fields(o) :: Copied(Fields(o)[k])
  }

  /** DeepCopyMap then SanitizeNils, on a map. */
  method CopyAndSanitize(o: Value) returns (r: map<string, Value>)
    requires IsMap(o)
    ensures r == Base(o)
  {
    var copy := GobCopy(o);
    var sanitized := SanitizeNils(copy);
    r := sanitized.fields;
  }

  /** How the copy of each kind of value looks. */
  lemma CopiedShape(v: Value)
    ensures IsMap(v) ==> Copied(v) == CopiedItem(v) == Obj(Base(v))
    ensures IsList(v) ==> Copied(v) == List(CopiedItems(Items(v)))
    ensures !IsMap(v) && !IsList(v) ==> Copied(v) == CopiedItem(v) == v
    ensures IsList(v) ==> CopiedItem(v) == GobCopy(v) && IsList(CopiedItem(v))
  {
    if v.List? && v.items != [] {
      assert Copied(v).items == CopiedItems(v.items);
    }
    if IsMap(v) {
      assert Copied(v).fields == Base(v);
    }
  }

  lemma {:induction false} GobCopyTwice(v: Value)
    ensures GobCopy(GobCopy(v)) == GobCopy(v)
  {
    match v
    case List(items) =>
      if items != [] {
        forall i | 0 <= i < |items| ensures GobCopy(GobCopy(items[i])) == GobCopy(items[i]) {
          GobCopyTwice(items[i]);
        }
        assert GobCopy(GobCopy(v)).items == GobCopy(v).items;
      }
    case Obj(fields) =>
      forall k | k in fields ensures GobCopy(GobCopy(fields[k])) == GobCopy(fields[k]) {
        GobCopyTwice(fields[k]);
      }
      assert GobCopy(GobCopy(v)).fields == GobCopy(v).fields;
    case _ =>
  }

  /** Copying a copy changes nothing, at field and at item positions. */
  lemma {:induction false} CopiedTwice(v: Value)
    ensures Copied(Copied(v)) == Copied(v) && CopiedItem(CopiedItem(v)) == CopiedItem(v)
  {
    CopiedShape(v);
    CopiedShape(Copied(v));
    GobCopyTwice(v);
    if IsMap(v) {
      forall k | k in Fields(v) ensures Copied(Copied(Fields(v)[k])) == Copied(Fields(v)[k]) {
        CopiedTwice(Fields(v)[k]);
      }
      assert Base(Obj(Base(v))) == Base(v);
    } else if IsList(v) {
      var items := Items(v);
      forall i | 0 <= i < |items| ensures CopiedItem(CopiedItem(items[i])) == CopiedItem(items[i]) {
        CopiedTwice(items[i]);
      }
      assert CopiedItems(CopiedItems(items)) == CopiedItems(items);
      CopiedShape(CopiedItem(v));
      assert CopiedItem(v) == GobCopy(v);
    }
  }

  ghost predicate HasEmptyList(v: Value) {
    match v
    case List(items) => items == [] || exists i :: 0 <= i < |items| && HasEmptyList(items[i])
    case Obj(fields) => exists k :: k in fields && HasEmptyList(fields[k])
    case _ => false
  }

  /** No empty list occurs, at any depth, inside a list that is itself an element of a list. */
  ghost predicate CopiesExactly(v: Value) {
    match v
    case List(items) =>
      forall i :: 0 <= i < |items| ==> if items[i].List? then !HasEmptyList(items[i]) else CopiesExactly(items[i])
    case Obj(fields) => forall k :: k in fields ==> CopiesExactly(fields[k])
    case _ => true
  }

  lemma {:induction false} GobKeeps(v: Value)
    requires IsJson(v)
    ensures GobCopy(v) == v <==> !HasEmptyList(v)
  {
    match v
    case List(items) =>
      forall i | 0 <= i < |items| ensures GobCopy(items[i]) == items[i] <==> !HasEmptyList(items[i]) {
        GobKeeps(items[i]);
      }
      if items != [] {
        if HasEmptyList(v) {
          var i :| 0 <= i < |items| && HasEmptyList(items[i]);
          assert GobCopy(v).items[i] != items[i];
        } else {
          assert GobCopy(v).items == items;
        }
      }
    case Obj(fields) =>
      forall k | k in fields ensures GobCopy(fields[k]) == fields[k] <==> !HasEmptyList(fields[k]) {
        GobKeeps(fields[k]);
      }
      if HasEmptyList(v) {
        var k :| k in fields && HasEmptyList(fields[k]);
        assert GobCopy(v).fields[k] != fields[k];
      } else {
        assert GobCopy(v).fields == fields;
      }
    case _ =>
  }

  /** Copy and rewrite give a JSON value back unchanged exactly when it has no empty list buried in a
      list of lists; any other comes back with that list nil, which serializes to null. */
  lemma {:induction false} CopyIsExact(v: Value)
    requires IsJson(v)
    ensures Copied(v) == v <==> CopiesExactly(v)
  {
    CopiedShape(v);
    match v
    case List(items) =>
      forall i | 0 <= i < |items|
        ensures CopiedItem(items[i]) == items[i] <==>
                if items[i].List? then !HasEmptyList(items[i]) else CopiesExactly(items[i])
      {
        CopiedShape(items[i]);
        GobKeeps(items[i]);
        CopyIsExact(items[i]);
      }
      if CopiesExactly(v) {
        assert CopiedItems(items) == items;
      } else {
        var i :| 0 <= i < |items| && !(if items[i].List? then !HasEmptyList(items[i]) else CopiesExactly(items[i]));
        assert CopiedItems(items)[i] != items[i];
      }
    case Obj(fields) =>
      forall k | k in fields ensures Copied(fields[k]) == fields[k] <==> CopiesExactly(fields[k]) {
        CopyIsExact(fields[k]);
      }
      if CopiesExactly(v) {
        assert Base(v) == fields;
      } else {
        var k :| k in fields && !CopiesExactly(fields[k]);
        assert Base(v)[k] != fields[k];
      }
    case _ =>
  }

  /** The smallest object that does not survive: {"a": [[]]} becomes {"a": [null]} once serialized. */
  lemma CopyLosesNestedEmptyList()
    ensures var o := Obj(map["a" := List([List([])])]);
            IsJson(o) && Base(o) == map["a" := List([NilList])]
  {
    var inner := List([List([])]);
    assert GobCopy(inner).items == [NilList];
    assert Sanitized(List([NilList])).items == [NilList];
  }
}
