/**
 * The validator the service threads through its checks: a map from a field
 * name to an error message. It is valid when the map is empty. `Check` records
 * an error only when its condition fails, and the first message recorded for a
 * key is kept.
 */
module Validation {

  class Validator {
    var errors: map<string, string>

    /** validator.New() */
    constructor ()
      ensures errors == map[]
    {
      errors := map[];
    }

    /** v.Valid(): no error has been recorded. */
    function Valid(): (ok: bool)
      reads this
      ensures ok <==> errors == map[]
    {
      |errors| == 0
    }

    /** v.AddError(key, message): records the message unless the key already has one. */
    method AddError(key: string, message: string)
      modifies this
      ensures errors == Record(old(errors), Rule(false, key, message))
    {
      if key !in errors {
        errors := errors[key := message];
      }
    }

    /** v.Check(ok, key, message): records an error exactly when `ok` is false. */
    method Check(ok: bool, key: string, message: string)
      modifies this
      ensures errors == Record(old(errors), Rule(ok, key, message))
    {
      if !ok {
        AddError(key, message);
      }
    }
  }

  /** One `Check` call as data: the condition, the key and the message it records on failure. */
  datatype Rule = Rule(ok: bool, key: string, message: string)

  /** The error map after one check. */
  function Record(errors: map<string, string>, c: Rule): map<string, string> {
    if c.ok || c.key in errors then errors else errors[c.key := c.message]
  }

  /** The error map after a run of checks, in order. */
  function RecordAll(errors: map<string, string>, checks: seq<Rule>): map<string, string>
    decreases |checks|
  {
    if checks == [] then errors
    else Record(RecordAll(errors, checks[..|checks| - 1]), checks[|checks| - 1])
  }

  /** One more check extends a run of checks by one `Record` step. */
  lemma RecordAllStep(errors: map<string, string>, checks: seq<Rule>, k: int)
    requires 0 < k <= |checks|
    ensures RecordAll(errors, checks[..k]) == Record(RecordAll(errors, checks[..k - 1]), checks[k - 1])
  {
    assert checks[..k][..k - 1] == checks[..k - 1];
  }

  /** Running two runs of checks back to back is running their concatenation. */
  lemma {:induction false} RecordAllAppend(errors: map<string, string>, a: seq<Rule>, b: seq<Rule>)
    ensures RecordAll(errors, a + b) == RecordAll(RecordAll(errors, a), b)
    decreases |b|
  {
    if b == [] {
      assert a + b == a;
    } else {
      var n := |b| - 1;
      RecordAllAppend(errors, a, b[..n]);
      assert (a + b)[..|a + b| - 1] == a + b[..n];
    }
  }

  /** The keys of the checks that fail. */
  function FailedKeys(checks: seq<Rule>): set<string> {
    set i | 0 <= i < |checks| && !checks[i].ok :: checks[i].key
  }

  /** Every check in the run passes. */
  predicate AllPass(checks: seq<Rule>) {
    forall i :: 0 <= i < |checks| ==> checks[i].ok
  }

  /** No key fails exactly when every check passes. */
  lemma NoFailedKeysIffAllPass(checks: seq<Rule>)
    ensures FailedKeys(checks) == {} <==> AllPass(checks)
  {
    if !AllPass(checks) {
      var i :| 0 <= i < |checks| && !checks[i].ok;
      assert checks[i].key in FailedKeys(checks);
    }
  }

  /** A run of checks adds exactly the keys of the failing checks and drops no key. */
  lemma {:induction false} RecordAllKeys(errors: map<string, string>, checks: seq<Rule>)
    ensures RecordAll(errors, checks).Keys == errors.Keys + FailedKeys(checks)
    decreases |checks|
  {
    if checks != [] {
      var n := |checks| - 1;
      RecordAllKeys(errors, checks[..n]);
      assert FailedKeys(checks) == FailedKeys(checks[..n]) + (if checks[n].ok then {} else {checks[n].key}) by {
        forall k | k in FailedKeys(checks) ensures k in FailedKeys(checks[..n]) + (if checks[n].ok then {} else {checks[n].key}) {
          var i :| 0 <= i < |checks| && !checks[i].ok && checks[i].key == k;
          if i < n {
            assert checks[..n][i] == checks[i];
          }
        }
        forall k | k in FailedKeys(checks[..n]) ensures k in FailedKeys(checks) {
          var i :| 0 <= i < n && !checks[..n][i].ok && checks[..n][i].key == k;
          assert checks[i] == checks[..n][i];
        }
      }
    }
  }

  /** A run of checks leaves no error exactly when none was there and every check passes. */
  lemma RecordAllEmpty(errors: map<string, string>, checks: seq<Rule>)
    ensures RecordAll(errors, checks) == map[] <==> errors == map[] && FailedKeys(checks) == {}
  {
    RecordAllKeys(errors, checks);
    NoErrorsIffNoKeys(errors);
    NoErrorsIffNoKeys(RecordAll(errors, checks));
  }

  lemma NoErrorsIffNoKeys(errors: map<string, string>)
    ensures errors == map[] <==> errors.Keys == {}
  {
    if errors.Keys == {} {
      assert errors == map[];
    }
  }

  /** validator.PermittedValue: the value is one of the permitted ones. */
  predicate PermittedValue(value: string, permitted: seq<string>) {
    value in permitted
  }

  /** The set of values in a list, built as validator.Unique builds its map. */
  function ValueSet(values: seq<string>): (r: set<string>)
    ensures forall x :: x in r <==> x in values
  {
    if values == [] then {} else {values[0]} + ValueSet(values[1..])
  }

  /** validator.Unique: the list has as many distinct values as it has entries. */
  predicate Unique(values: seq<string>) {
    |ValueSet(values)| == |values|
  }

  /** No value occurs twice. */
  predicate NoDuplicates(values: seq<string>) {
    forall i, j :: 0 <= i < j < |values| ==> values[i] != values[j]
  }

  lemma {:induction false} ValueSetSize(values: seq<string>)
    ensures |ValueSet(values)| <= |values|
  {
    if values != [] {
      ValueSetSize(values[1..]);
    }
  }

  lemma NoDuplicatesCons(values: seq<string>)
    requires values != []
    ensures NoDuplicates(values) <==> values[0] !in values[1..] && NoDuplicates(values[1..])
  {
    var rest := values[1..];
    if values[0] in rest {
      var j :| 0 <= j < |rest| && rest[j] == values[0];
      assert values[j + 1] == values[0];
    }
    if NoDuplicates(values) {
      forall i, j | 0 <= i < j < |rest| ensures rest[i] != rest[j] {
        assert rest[i] == values[i + 1] && rest[j] == values[j + 1];
      }
    }
  }

  /** Unique, counted by set size, means exactly that no value occurs twice. */
  lemma {:induction false} UniqueIffNoDuplicates(values: seq<string>)
    ensures Unique(values) <==> NoDuplicates(values)
  {
    if values != [] {
      var rest := values[1..];
      UniqueIffNoDuplicates(rest);
      ValueSetSize(rest);
      NoDuplicatesCons(values);
      if values[0] in rest {
        assert ValueSet(values) == ValueSet(rest);
      } else {
        assert values[0] !in ValueSet(rest);
        assert |ValueSet(values)| == 1 + |ValueSet(rest)|;
      }
    }
  }
}
