/** `validate(struct, schema)`: checks a dictionary against an ordered list
    of `(name, required, type)` entries, in schema order. An absent required
    key fails, an absent optional key is filled in with None, and a present
    value of the wrong type fails. The dictionary is changed in place, so on
    failure it keeps the keys filled in before the failing entry. */
module Schema {
  import opened Values

  /** The Python types a schema entry may name. */
  datatype FieldType = TStr | TInt | TBool | TList | TDict

  datatype Field = Field(name: string, required: bool, ftype: FieldType)

  datatype ValidationError = MissingRequiredField(name: string) | WrongType(name: string)

  datatype Outcome = Pass | Fail(error: ValidationError)

  /** The dictionary after validation, and whether validation passed. */
  datatype Validation = Validation(outcome: Outcome, fields: map<string, Value>)

  /** `isinstance(value, type)`; as in Python, a bool is also an int and None
      is an instance of none of these types. */
  predicate Matches(v: Value, t: FieldType) {
    match t
    case TStr => v.VStr?
    case TInt => v.VInt? || v.VBool?
    case TBool => v.VBool?
    case TList => v.VList?
    case TDict => v.VDict?
  }

  ghost predicate DistinctNames(schema: seq<Field>) {
    forall i, j :: 0 <= i < j < |schema| ==> schema[i].name != schema[j].name
  }

  /** The effect of validating `fields` against `schema`, entry by entry. */
  function Validated(fields: map<string, Value>, schema: seq<Field>): (v: Validation)
    ensures fields.Keys <= v.fields.Keys
    decreases |schema|
  {
    if schema == [] then Validation(Pass, fields)
    else
      var f := schema[0];
      if f.name !in fields then
        if f.required then Validation(Fail(MissingRequiredField(f.name)), fields)
        else Validated(fields[f.name := VNone], schema[1..])
      else if !Matches(fields[f.name], f.ftype) then Validation(Fail(WrongType(f.name)), fields)
      else Validated(fields, schema[1..])
  }

  /** A Python dict handed to `validate`. */
  class Struct {
    var fields: map<string, Value>

    constructor (initial: map<string, Value>)
      ensures fields == initial
    {
      fields := initial;
    }

    /** `validate(self, schema)`: returns the outcome (Python's `validate` raises on
        failure) and leaves the dictionary as `Validated` says. */
    method Validate(schema: seq<Field>) returns (outcome: Outcome)
      modifies this
      ensures Validated(old(fields), schema) == Validation(outcome, fields)
    {
      var i := 0;
      while i < |schema|
        invariant 0 <= i <= |schema|
        invariant Validated(old(fields), schema) == Validated(fields, schema[i..])
      {
        var f := schema[i];
        assert schema[i..][1..] == schema[i + 1..];
        if f.name !in fields {
          if f.required {
            return Fail(MissingRequiredField(f.name));
          }
          fields := fields[f.name := VNone];
        } else if !Matches(fields[f.name], f.ftype) {
          return Fail(WrongType(f.name));
        }
        i := i + 1;
      }
      return Pass;
    }
  }

  /** Validation only adds keys: every key already present keeps its value,
      and every added key is an optional schema entry set to None. This
      holds whether validation passes or fails. */
  lemma {:induction false} ValidatedOnlyFillsOptional(fields: map<string, Value>, schema: seq<Field>)
    ensures var after := Validated(fields, schema).fields;
      && fields.Keys <= after.Keys
      && (forall k :: k in fields ==> after[k] == fields[k])
      && (forall k :: k in after && k !in fields ==>
            after[k] == VNone && exists i :: 0 <= i < |schema| && schema[i].name == k && !schema[i].required)
    decreases |schema|
  {
    if schema != [] {
      var f := schema[0];
      if f.name !in fields && !f.required {
        var filled := fields[f.name := VNone];
        ValidatedOnlyFillsOptional(filled, schema[1..]);
        var after := Validated(fields, schema).fields;
        forall k | k in after && k !in fields
          ensures after[k] == VNone && exists i :: 0 <= i < |schema| && schema[i].name == k && !schema[i].required
        {
          if k != f.name {
            var i :| 0 <= i < |schema[1..]| && schema[1..][i].name == k && !schema[1..][i].required;
            assert schema[i + 1] == schema[1..][i];
          }
        }
      } else if f.name in fields && Matches(fields[f.name], f.ftype) {
        ValidatedOnlyFillsOptional(fields, schema[1..]);
        var after := Validated(fields, schema).fields;
        forall k | k in after && k !in fields
          ensures exists i :: 0 <= i < |schema| && schema[i].name == k && !schema[i].required
        {
          var i :| 0 <= i < |schema[1..]| && schema[1..][i].name == k && !schema[1..][i].required;
          assert schema[i + 1] == schema[1..][i];
        }
      }
    }
  }

  /** The entry a schema of distinct names sets out for one dictionary:
      present and well typed, or absent and optional. */
  ghost predicate EntrySatisfied(fields: map<string, Value>, f: Field) {
    if f.name in fields then Matches(fields[f.name], f.ftype) else !f.required
  }

  /** With distinct names, validation passes exactly when every entry is
      satisfied by the original dictionary. */
  lemma {:induction false} ValidatedPassIff(fields: map<string, Value>, schema: seq<Field>)
    requires DistinctNames(schema)
    ensures Validated(fields, schema).outcome == Pass <==> forall i :: 0 <= i < |schema| ==> EntrySatisfied(fields, schema[i])
    decreases |schema|
  {
    if schema != [] {
      var f := schema[0];
      assert DistinctNames(schema[1..]) by {
        forall i, j | 0 <= i < j < |schema[1..]| ensures schema[1..][i].name != schema[1..][j].name {
          assert schema[1..][i] == schema[i + 1] && schema[1..][j] == schema[j + 1];
        }
      }
      var next := if f.name !in fields then fields[f.name := VNone] else fields;
      ValidatedPassIff(next, schema[1..]);
      // The entries after the first never name the first entry's key, so
      // filling it in changes none of their verdicts.
      forall i | 1 <= i < |schema| ensures EntrySatisfied(next, schema[i]) == EntrySatisfied(fields, schema[i]) {
        assert schema[i].name != f.name;
      }
      if (forall i :: 0 <= i < |schema| ==> EntrySatisfied(fields, schema[i])) {
        assert EntrySatisfied(fields, schema[0]);
        forall i | 0 <= i < |schema[1..]| ensures EntrySatisfied(next, schema[1..][i]) {
          assert schema[1..][i] == schema[i + 1];
        }
      } else if EntrySatisfied(fields, f) {
        var i :| 0 <= i < |schema| && !EntrySatisfied(fields, schema[i]);
        assert i >= 1;
        assert schema[1..][i - 1] == schema[i];
      }
    }
  }

  /** A dictionary whose every schema key is present and well typed passes
      unchanged. */
  lemma {:induction false} ValidatedWellTypedUnchanged(fields: map<string, Value>, schema: seq<Field>)
    requires forall i :: 0 <= i < |schema| ==> schema[i].name in fields && Matches(fields[schema[i].name], schema[i].ftype)
    ensures Validated(fields, schema) == Validation(Pass, fields)
    decreases |schema|
  {
    if schema != [] {
      assert schema[0].name in fields;
      forall i | 0 <= i < |schema[1..]|
        ensures schema[1..][i].name in fields && Matches(fields[schema[1..][i].name], schema[1..][i].ftype)
      {
        assert schema[1..][i] == schema[i + 1];
      }
      ValidatedWellTypedUnchanged(fields, schema[1..]);
    }
  }

  /** After a pass every schema key is present. */
  lemma {:induction false} ValidatedPassHasAllKeys(fields: map<string, Value>, schema: seq<Field>)
    requires Validated(fields, schema).outcome == Pass
    ensures forall i :: 0 <= i < |schema| ==> schema[i].name in Validated(fields, schema).fields
    decreases |schema|
  {
    if schema != [] {
      var f := schema[0];
      var next := if f.name !in fields then fields[f.name := VNone] else fields;
      ValidatedPassHasAllKeys(next, schema[1..]);
      ValidatedOnlyFillsOptional(next, schema[1..]);
      forall i | 0 <= i < |schema| ensures schema[i].name in Validated(fields, schema).fields {
        if i > 0 { assert schema[i] == schema[1..][i - 1]; }
      }
    }
  }

  /** A failure names an entry of the schema that the dictionary, as filled
      in so far, does not satisfy: a missing required key, or a key whose
      value (None, if the validator filled it in itself) has the wrong type. */
  lemma {:induction false} ValidatedFailureNamesEntry(fields: map<string, Value>, schema: seq<Field>)
    requires Validated(fields, schema).outcome.Fail?
    ensures var v := Validated(fields, schema); var e := v.outcome.error;
      exists i :: 0 <= i < |schema| && schema[i].name == e.name &&
        (if e.MissingRequiredField? then schema[i].required && e.name !in v.fields
         else e.name in v.fields && !Matches(v.fields[e.name], schema[i].ftype))
    decreases |schema|
  {
    var f := schema[0];
    var v := Validated(fields, schema);
    if f.name !in fields && f.required {
    } else if f.name in fields && !Matches(fields[f.name], f.ftype) {
    } else {
      var next := if f.name !in fields then fields[f.name := VNone] else fields;
      ValidatedFailureNamesEntry(next, schema[1..]);
      var e := v.outcome.error;
      var i :| 0 <= i < |schema[1..]| && schema[1..][i].name == e.name &&
        (if e.MissingRequiredField? then schema[1..][i].required && e.name !in v.fields
         else e.name in v.fields && !Matches(v.fields[e.name], schema[1..][i].ftype));
      assert schema[i + 1] == schema[1..][i];
    }
  }

  /** The cases of tests/utils_test.py: a missing optional str key is added;
      a present one of type str passes, one of type int fails; a list passes
      where a list is expected and a str fails there. */
  method ValidateExamples() {
    var strSchema := [Field("required", true, TStr), Field("optional", false, TStr)];
    var s := new Struct(map["required" := VStr("foo")]);
    var r := s.Validate(strSchema);
    assert r == Pass && "optional" in s.fields;

    s := new Struct(map["required" := VStr("foo"), "optional" := VStr("xxx")]);
    r := s.Validate(strSchema);
    assert r == Pass;

    s := new Struct(map["required" := VStr("foo"), "optional" := VInt(1234)]);
    r := s.Validate(strSchema);
    assert r == Fail(WrongType("optional"));

    var listSchema := [Field("required", true, TList), Field("optional", false, TList)];
    s := new Struct(map["required" := VList([VStr("foo")])]);
    r := s.Validate(listSchema);
    assert r == Pass;

    s := new Struct(map["required" := VStr("foo")]);
    r := s.Validate(listSchema);
    assert r == Fail(WrongType("required"));
  }
}
