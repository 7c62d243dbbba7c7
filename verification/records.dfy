/** `to_obj(value, name)`: turns nested dictionaries into read-only records
    whose attributes are the dictionary's keys. Dictionaries become records,
    lists keep their order with each element converted, and every other
    value passes through unchanged. */
module Records {
  import opened Values
  import opened Results

  /** The converted value: a record (a Python namedtuple labelled `name`),
      a list, or a value that is neither a dictionary nor a list. */
  datatype Obj =
    | Scalar(value: Value)
    | Items(items: seq<Obj>)
    | Record(typeName: string, attrs: map<string, Obj>)

  /** `to_obj`: dictionaries become records labelled `name` with the same
      keys, lists stay lists of the same length, and every other value
      passes through as it is. */
  function ToObj(v: Value, name: string): (r: Obj)
    ensures r.Record? <==> v.VDict?
    ensures r.Items? <==> v.VList?
    ensures r.Record? ==> r.typeName == name && r.attrs.Keys == v.entries.Keys
    ensures r.Items? ==> |r.items| == |v.items|
    ensures r.Scalar? ==> r.value == v
    decreases v
  {
    match v
    case VDict(entries) => Record(name, map k | k in entries :: ToObj(entries[k], name))
    case VList(items) => Items(seq(|items|, i requires 0 <= i < |items| => ToObj(items[i], name)))
    case _ => Scalar(v)
  }

  /** Attribute lookup `obj.key`; anything but a record has no attributes. */
  function Attr(obj: Obj, key: string): (r: Option<Obj>)
    ensures r.Some? <==> obj.Record? && key in obj.attrs
  {
    if obj.Record? && key in obj.attrs then Some(obj.attrs[key]) else None
  }

  /** The value a converted object stands for. */
  function FromObj(obj: Obj): (v: Value)
    decreases obj
  {
    match obj
    case Scalar(value) => value
    case Items(items) => VList(seq(|items|, i requires 0 <= i < |items| => FromObj(items[i])))
    case Record(_, attrs) => VDict(map k | k in attrs :: FromObj(attrs[k]))
  }

  /** What `to_obj` builds: scalars only where the input had neither a
      dictionary nor a list. */
  ghost predicate WellFormed(obj: Obj)
    decreases obj
  {
    match obj
    case Scalar(value) => !value.VDict? && !value.VList?
    case Items(items) => forall i :: 0 <= i < |items| ==> WellFormed(items[i])
    case Record(_, attrs) => forall k :: k in attrs ==> WellFormed(attrs[k])
  }

  /** Every key of a dictionary becomes an attribute holding the conversion
      of its value, and no other attribute exists. */
  lemma ToObjAttributes(entries: map<string, Value>, name: string, key: string)
    ensures Attr(ToObj(VDict(entries), name), key) ==
      if key in entries then Some(ToObj(entries[key], name)) else None
  {
  }

  /** A list stays a list of the same length and order, element by element. */
  lemma ToObjList(items: seq<Value>, name: string)
    ensures var r := ToObj(VList(items), name);
      r.Items? && |r.items| == |items| && forall i :: 0 <= i < |items| ==> r.items[i] == ToObj(items[i], name)
  {
  }

  /** Converting loses nothing: the converted object stands for exactly the
      original value, at every depth. */
  lemma {:induction false} FromToObj(v: Value, name: string)
    ensures FromObj(ToObj(v, name)) == v
    decreases v
  {
    match v
    case VDict(entries) =>
      var attrs := map k | k in entries :: ToObj(entries[k], name);
      forall k | k in entries ensures FromObj(attrs[k]) == entries[k] {
        FromToObj(entries[k], name);
      }
      assert (map k | k in attrs :: FromObj(attrs[k])) == entries;
    case VList(items) =>
      var objs := seq(|items|, i requires 0 <= i < |items| => ToObj(items[i], name));
      forall i | 0 <= i < |items| ensures FromObj(objs[i]) == items[i] {
        FromToObj(items[i], name);
      }
      assert seq(|objs|, i requires 0 <= i < |objs| => FromObj(objs[i])) == items;
    case _ =>
  }

  /** Only values that are neither dictionaries nor lists pass through as
      they are; every dictionary, however deep, becomes a record. */
  lemma {:induction false} ToObjWellFormed(v: Value, name: string)
    ensures WellFormed(ToObj(v, name))
    decreases v
  {
    match v
    case VDict(entries) =>
      forall k | k in entries ensures WellFormed(ToObj(entries[k], name)) {
        ToObjWellFormed(entries[k], name);
      }
    case VList(items) =>
      forall i | 0 <= i < |items| ensures WellFormed(ToObj(items[i], name)) {
        ToObjWellFormed(items[i], name);
      }
    case _ =>
  }

  /** The flat cases of tests/utils_test.py: `{'a': 1, 'b': [1, 2, 3], 'c': 3}` gives
      `obj.a == 1`, `obj.b == [1, 2, 3]` and `obj.c == 3`. */
  lemma ToObjFlatExample()
    ensures var obj := ToObj(VDict(map["a" := VInt(1), "b" := VList([VInt(1), VInt(2), VInt(3)]), "c" := VInt(3)]), "foo");
      Attr(obj, "a") == Some(Scalar(VInt(1))) && Attr(obj, "c") == Some(Scalar(VInt(3))) &&
      Attr(obj, "b") == Some(Items([Scalar(VInt(1)), Scalar(VInt(2)), Scalar(VInt(3))]))
  {
    var items := [VInt(1), VInt(2), VInt(3)];
    ToObjList(items, "foo");
    assert ToObj(VList(items), "foo").items == [Scalar(VInt(1)), Scalar(VInt(2)), Scalar(VInt(3))];
    ToObjAttributes(map["a" := VInt(1), "b" := VList(items), "c" := VInt(3)], "foo", "b");
  }

  /** The first nested case of tests/utils_test.py: `{'a': 1, 'b': {'d': 5}, 'c': 3}`
      gives `obj.b.d == 5`. */
  lemma ToObjNestedExample()
    ensures var obj := ToObj(VDict(map["a" := VInt(1), "b" := VDict(map["d" := VInt(5)]), "c" := VInt(3)]), "foo");
      Attr(obj, "a") == Some(Scalar(VInt(1))) && Attr(obj, "c") == Some(Scalar(VInt(3))) &&
      Attr(obj, "b").Some? && Attr(Attr(obj, "b").value, "d") == Some(Scalar(VInt(5)))
  {
    var inner := map["d" := VInt(5)];
    ToObjAttributes(inner, "foo", "d");
    ToObjAttributes(map["a" := VInt(1), "b" := VDict(inner), "c" := VInt(3)], "foo", "b");
  }

  /** The second nested case of tests/utils_test.py: `{'a': [1, {'d': 5}, 3], 'b': 33}`
      gives `obj.a[0] == 1`, `obj.a[1].d == 5`, `obj.a[2] == 3`. */
  lemma ToObjListExample()
    ensures var obj := ToObj(VDict(map["a" := VList([VInt(1), VDict(map["d" := VInt(5)]), VInt(3)]), "b" := VInt(33)]), "foo");
      Attr(obj, "a").Some? && Attr(obj, "a").value.Items? && |Attr(obj, "a").value.items| == 3 &&
      Attr(obj, "a").value.items[0] == Scalar(VInt(1)) &&
      Attr(Attr(obj, "a").value.items[1], "d") == Some(Scalar(VInt(5))) &&
      Attr(obj, "a").value.items[2] == Scalar(VInt(3)) &&
      Attr(obj, "b") == Some(Scalar(VInt(33)))
  {
    var inner := map["d" := VInt(5)];
    ToObjAttributes(inner, "foo", "d");
    var items := [VInt(1), VDict(inner), VInt(3)];
    ToObjList(items, "foo");
    ToObjAttributes(map["a" := VList(items), "b" := VInt(33)], "foo", "a");
  }
}
