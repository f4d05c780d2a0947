/**
 * validator.py: flags each required field of a record "Missing" or "OK".
 */
module Validator {
  import opened Records

  /** The required fields, in the order their flags are produced. */
  const Required: seq<string> := ["patient_name", "patient_id"]

  const Missing: string := "Missing"
  const Ok: string := "OK"

  /** `validate_record`: one (field, flag) pair per required field, in order. The flags dict is
      given as its sequence of items; the record itself is only read. */
  method ValidateRecord(rec: Record) returns (flags: seq<(string, string)>)
    ensures |flags| == |Required|
    ensures forall i :: 0 <= i < |flags| ==> flags[i].0 == Required[i]
    ensures forall i :: 0 <= i < |flags| ==>
              (flags[i].1 == Missing <==> !Truthy(Get(rec.entries, Required[i])))
              && (flags[i].1 == Ok <==> Truthy(Get(rec.entries, Required[i])))
    ensures (forall i :: 0 <= i < |flags| ==> flags[i].1 == Ok) <==>
              (forall f :: f in Required ==> f in rec.entries && rec.entries[f].Str? && rec.entries[f].s != "")
  {
    flags := [];
    var i := 0;
    while i < |Required|
      invariant 0 <= i <= |Required|
      invariant |flags| == i
      invariant forall j :: 0 <= j < i ==> flags[j].0 == Required[j]
      invariant forall j :: 0 <= j < i ==>
                  (flags[j].1 == Missing <==> !Truthy(Get(rec.entries, Required[j])))
                  && (flags[j].1 == Ok <==> Truthy(Get(rec.entries, Required[j])))
    {
      var field := Required[i];
      if !Truthy(Get(rec.entries, field)) {
        flags := flags + [(field, Missing)];
      } else {
        flags := flags + [(field, Ok)];
      }
      i := i + 1;
    }
    assert forall f :: f in Required ==> f == Required[0] || f == Required[1];
  }
}
