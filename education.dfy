/**
  `validateEducationInput`: normalises the four required fields of an input
  record in place and reports, per field, the ones left empty.

  The repository's own `isEmpty` helper is not part of this model; it is a
  parameter, about which the lemmas assume only that it holds for `''` and
  that it holds for an object exactly when the object has no keys.
  `Validator.isEmpty` from the `validator` library tests a string for length
  zero and throws a TypeError when given anything but a string.
 */
module Education {
  import opened JsValues

  const School := "school"
  const Degree := "degree"
  const FieldOfStudy := "field_of_study"
  const From := "from"

  /** The fields the validator normalises and requires. */
  const Required: set<string> := {School, Degree, FieldOfStudy, From}

  /** The message reported for an empty required field. */
  function Message(field: string): (message: string)
  {
    if field == School then "School is required"
    else if field == Degree then "Degree is required"
    else if field == FieldOfStudy then "Field of Study is required"
    else "Date is required"
  }

  datatype Validation = Validation(errors: map<string, string>, isValid: bool)

  /** A call either returns `{ errors, isValid }` or throws out of `Validator.isEmpty`. */
  datatype Outcome = Returned(result: Validation) | ThrewTypeError

  /** The input object, whose properties the validator overwrites. */
  class Record {
    var fields: map<string, Value>

    constructor (fields: map<string, Value>)
      ensures this.fields == fields
    {
      this.fields := fields;
    }
  }

  /** `Validator.isEmpty`: `None` stands for the TypeError it throws on a non-string. */
  function ValidatorIsEmpty(v: Value): Option<bool>
  {
    if v.Str? then Some(|v.s| == 0) else None
  }

  /** One normalising assignment: an empty value becomes `''`, any other is kept. */
  function Normalise(v: Value, isEmpty: Value -> bool): (r: Value)
    ensures !isEmpty(v) ==> r == v
    ensures isEmpty(v) ==> r == Str("")
    ensures isEmpty(Str("")) ==> isEmpty(r) == isEmpty(v)
  {
    if !isEmpty(v) then v else Str("")
  }

  /** The record after the four normalising assignments. */
  function Normalised(fields: map<string, Value>, isEmpty: Value -> bool): (r: map<string, Value>)
    ensures r.Keys == fields.Keys + Required
    ensures forall k :: k in Required ==> r[k] == Normalise(Get(fields, k), isEmpty)
    ensures forall k :: k in fields && k !in Required ==> r[k] == fields[k]
  {
    fields[School := Normalise(Get(fields, School), isEmpty)]
          [Degree := Normalise(Get(fields, Degree), isEmpty)]
          [FieldOfStudy := Normalise(Get(fields, FieldOfStudy), isEmpty)]
          [From := Normalise(Get(fields, From), isEmpty)]
  }

  /** The errors expected of a record: one fixed message per required field holding `''`. */
  function RequiredErrors(fields: map<string, Value>): (r: map<string, string>)
    ensures r.Keys <= Required
    ensures School in r <==> Get(fields, School) == Str("")
    ensures Degree in r <==> Get(fields, Degree) == Str("")
    ensures FieldOfStudy in r <==> Get(fields, FieldOfStudy) == Str("")
    ensures From in r <==> Get(fields, From) == Str("")
    ensures School in r ==> r[School] == "School is required"
    ensures Degree in r ==> r[Degree] == "Degree is required"
    ensures FieldOfStudy in r ==> r[FieldOfStudy] == "Field of Study is required"
    ensures From in r ==> r[From] == "Date is required"
  {
    map k | k in Required && Get(fields, k) == Str("") :: Message(k)
  }

  /** Whether some required field holds a value `Validator.isEmpty` refuses. */
  predicate HasNonString(fields: map<string, Value>)
  {
    exists k :: k in Required && !Get(fields, k).Str?
  }

  /** What the checks of an already normalised record produce. */
  function ExpectedOutcome(fields: map<string, Value>, isEmpty: Value -> bool): (r: Outcome)
  {
    if HasNonString(fields) then ThrewTypeError
    else
      var errors := RequiredErrors(fields);
      Returned(Validation(errors, isEmpty(Obj(errors.Keys))))
  }

  /**
    Normalises `data` in place, then checks each required field in turn,
    adding its message to `errors` when it is empty.
   */
  method ValidateEducationInput(data: Record, isEmpty: Value -> bool) returns (r: Outcome)
    modifies data
    ensures data.fields == Normalised(old(data.fields), isEmpty)
    ensures r == ExpectedOutcome(data.fields, isEmpty)
  {
    ghost var before := data.fields;
    data.fields := data.fields[School := Normalise(Get(data.fields, School), isEmpty)];
    assert Get(data.fields, Degree) == Get(before, Degree);
    assert Get(data.fields, FieldOfStudy) == Get(before, FieldOfStudy);
    assert Get(data.fields, From) == Get(before, From);
    data.fields := data.fields[Degree := Normalise(Get(data.fields, Degree), isEmpty)];
    assert Get(data.fields, FieldOfStudy) == Get(before, FieldOfStudy);
    assert Get(data.fields, From) == Get(before, From);
    data.fields := data.fields[FieldOfStudy := Normalise(Get(data.fields, FieldOfStudy), isEmpty)];
    assert Get(data.fields, From) == Get(before, From);
    data.fields := data.fields[From := Normalise(Get(data.fields, From), isEmpty)];
    ghost var normalised := data.fields;
    assert normalised == Normalised(before, isEmpty);

    var errors: map<string, string> := map[];
    var empty := ValidatorIsEmpty(data.fields[School]);
    if empty.None? {
      assert !normalised[School].Str?;
      return ThrewTypeError;
    }
    assert empty.value <==> normalised[School] == Str("");
    if empty.value {
      errors := errors[School := "School is required"];
    }
    empty := ValidatorIsEmpty(data.fields[Degree]);
    if empty.None? {
      assert !normalised[Degree].Str?;
      return ThrewTypeError;
    }
    assert empty.value <==> normalised[Degree] == Str("");
    if empty.value {
      errors := errors[Degree := "Degree is required"];
    }
    empty := ValidatorIsEmpty(data.fields[FieldOfStudy]);
    if empty.None? {
      assert !normalised[FieldOfStudy].Str?;
      return ThrewTypeError;
    }
    assert empty.value <==> normalised[FieldOfStudy] == Str("");
    if empty.value {
      errors := errors[FieldOfStudy := "Field of Study is required"];
    }
    empty := ValidatorIsEmpty(data.fields[From]);
    if empty.None? {
      assert !normalised[From].Str?;
      return ThrewTypeError;
    }
    assert empty.value <==> normalised[From] == Str("");
    if empty.value {
      errors := errors[From := "Date is required"];
    }
    assert !HasNonString(normalised);
    SameErrors(normalised, errors);
    r := Returned(Validation(errors, isEmpty(Obj(errors.Keys))));
  }

  /** A map with exactly the required-field entries of a record is its expected errors. */
  lemma SameErrors(fields: map<string, Value>, errors: map<string, string>)
    requires errors.Keys <= Required
    requires forall k :: k in Required ==> (k in errors <==> Get(fields, k) == Str(""))
    requires forall k :: k in errors ==> errors[k] == Message(k)
    ensures errors == RequiredErrors(fields)
  {
  }

  /** `isValid` holds exactly when `errors` has no entries. */
  lemma ValidIffNoErrors(fields: map<string, Value>, isEmpty: Value -> bool)
    requires forall keys :: isEmpty(Obj(keys)) <==> keys == {}
    ensures ExpectedOutcome(fields, isEmpty).Returned? ==>
      (ExpectedOutcome(fields, isEmpty).result.isValid <==> ExpectedOutcome(fields, isEmpty).result.errors == map[])
  {
  }

  /**
    Only a required field that the local `isEmpty` keeps and that is not a
    string makes a call throw.
   */
  lemma ThrowsIffKeptNonString(fields: map<string, Value>, isEmpty: Value -> bool)
    ensures ExpectedOutcome(Normalised(fields, isEmpty), isEmpty).ThrewTypeError? <==>
      exists k :: k in Required && !isEmpty(Get(fields, k)) && !Get(fields, k).Str?
  {
  }

  /**
    Normalising twice is normalising once, so validating an already
    validated record again yields the same outcome.
   */
  lemma RevalidateSame(fields: map<string, Value>, isEmpty: Value -> bool)
    requires isEmpty(Str(""))
    ensures Normalised(Normalised(fields, isEmpty), isEmpty) == Normalised(fields, isEmpty)
    ensures ExpectedOutcome(Normalised(Normalised(fields, isEmpty), isEmpty), isEmpty)
         == ExpectedOutcome(Normalised(fields, isEmpty), isEmpty)
  {
  }
}
