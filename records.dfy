/**
 * A patient record as extractor.py and validator.py see it: a Python dict from
 * field names to values that are either `None` or a string.
 */
module Records {

  /** A dict value: Python's `None`, or a string. */
  datatype Value = NoneValue | Str(s: string)

  /** Python truthiness of a value: a non-empty string. */
  predicate Truthy(v: Value)
  {
    v.Str? && v.s != ""
  }

  /** `d.get(key, default)` */
  function GetOr(d: map<string, Value>, key: string, default: Value): (v: Value)
    ensures key in d ==> v == d[key]
    ensures key !in d ==> v == default
  {
    if key in d then d[key] else default
  }

  /** `d.get(key)`: absent keys read as `None`. */
  function Get(d: map<string, Value>, key: string): (v: Value)
    ensures key in d ==> v == d[key]
    ensures key !in d ==> v == NoneValue
    ensures Truthy(v) ==> key in d && d[key] == v
  {
    GetOr(d, key, NoneValue)
  }

  /** A dict object that callers share and that normalisation updates in place. */
  class Record {
    var entries: map<string, Value>

    constructor (entries: map<string, Value>)
      ensures this.entries == entries
    {
      this.entries := entries;
    }
  }
}
