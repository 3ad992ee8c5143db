/** A record of one book: the scalar fields it was given and, per
    multi-valued field, an insertion-ordered map of entries in which every
    entry is keyed by its own value (phone numbers of a contact, tags of a
    note). */
module Records {
  import opened Wrappers
  import opened Dicts
  import opened PyStr

  /** The field lists a record kind declares: `get_record_fields`,
      `get_record_multi_value_fields` and `get_record_required_fields`. */
  datatype Schema = Schema(fields: seq<string>, multiValueFields: seq<string>, requiredFields: seq<string>)

  /** Keyword arguments of a command, in the order they were given. */
  type Kwargs = Dict<string>

  /** A required field counts as missing when it is absent or empty. */
  predicate IsMissing(kwargs: Kwargs, field: string) {
    GetOr(kwargs, field, "") == ""
  }

  /** The keyword names that are not declared record fields, in argument order. */
  function UnsupportedFields(schema: Schema, kwargs: Kwargs): (r: seq<string>)
    ensures forall k :: k in r <==> k in Keys(kwargs) && k !in schema.fields
  {
    if |kwargs| == 0 then []
    else (if kwargs[0].0 in schema.fields then [] else [kwargs[0].0]) + UnsupportedFields(schema, kwargs[1..])
  }

  /** The required fields that are absent or empty, in declaration order. */
  function MissingRequiredFields(required: seq<string>, kwargs: Kwargs): (r: seq<string>)
    ensures forall f :: f in r <==> f in required && IsMissing(kwargs, f)
  {
    if |required| == 0 then []
    else (if IsMissing(kwargs, required[0]) then [required[0]] else []) + MissingRequiredFields(required[1..], kwargs)
  }

  /** The checks `Record.__init__` makes before it stores anything: unknown
      keyword names first, then missing required fields, each reported with
      the `ValueError` message the constructor raises. */
  function ValidateKwargs(schema: Schema, kwargs: Kwargs): (r: Outcome<string>)
    ensures r.Pass? <==>
      (forall k :: k in Keys(kwargs) ==> k in schema.fields)
      && (forall f :: f in schema.requiredFields ==> !IsMissing(kwargs, f))
    ensures (exists k :: k in Keys(kwargs) && k !in schema.fields) ==>
      r == Fail("Unsupported field(s): " + Join(UnsupportedFields(schema, kwargs), ", "))
    ensures (forall k :: k in Keys(kwargs) ==> k in schema.fields) && r.Fail? ==>
      r == Fail("Missing required field(s): " + Join(MissingRequiredFields(schema.requiredFields, kwargs), ", "))
  {
    var unsupported := UnsupportedFields(schema, kwargs);
    if |unsupported| > 0 then
      assert unsupported[0] in unsupported;
      Fail("Unsupported field(s): " + Join(unsupported, ", "))
    else
      var missing := MissingRequiredFields(schema.requiredFields, kwargs);
      if |missing| > 0 then
        assert missing[0] in missing;
        Fail("Missing required field(s): " + Join(missing, ", "))
      else
        Pass
  }

  /** The scalar fields a new record holds: each declared field that was passed. */
  function InitialFields(declared: seq<string>, kwargs: Kwargs): map<string, string> {
    if |declared| == 0 then map[]
    else
      var m := InitialFields(declared[..|declared| - 1], kwargs);
      var f := declared[|declared| - 1];
      match Get(kwargs, f)
      case Some(v) => m[f := v]
      case None => m
  }

  /** The entry maps a new record starts with: a multi-valued field that was
      passed gets its value as an entry keyed by itself. */
  function InitialMultiValueFields(multi: seq<string>, kwargs: Kwargs): map<string, Dict<string>> {
    if |multi| == 0 then map[]
    else
      var m := InitialMultiValueFields(multi[..|multi| - 1], kwargs);
      var f := multi[|multi| - 1];
      match Get(kwargs, f)
      case Some(v) => if f !in m || m[f] == [] then m[f := [(v, v)]] else m[f := Put(m[f], v, v)]
      case None => m
  }

  /** The entries of a multi-valued field; a field never touched has none. */
  function EntriesOf(m: map<string, Dict<string>>, name: string): Dict<string> {
    if name in m then m[name] else []
  }

  /** `_init_multi_value_field`: an empty entry map for a field that has none yet. */
  function WithFieldInitialised(m: map<string, Dict<string>>, name: string): map<string, Dict<string>> {
    if name in m then m else m[name := []]
  }

  function WithEntryAdded(m: map<string, Dict<string>>, name: string, value: string): map<string, Dict<string>> {
    m[name := Put(EntriesOf(m, name), value, value)]
  }

  function WithEntryUpdated(m: map<string, Dict<string>>, name: string, oldValue: string, newValue: string): map<string, Dict<string>> {
    m[name := Put(EntriesOf(m, name), oldValue, newValue)]
  }

  function WithEntryDeleted(m: map<string, Dict<string>>, name: string, value: string): map<string, Dict<string>> {
    m[name := Pop(EntriesOf(m, name), value)]
  }

  /** The scalar state `Record.__init__` leaves as written: each declared
      field passed becomes an attribute of the object through `setattr`,
      while the `fields` dict, which every book operation reads and writes,
      stays empty. The constructor below stores the fields in `fields`. */
  datatype InitAsWritten = InitAsWritten(attributes: map<string, string>, fields: map<string, string>)

  function InitialStateAsWritten(declared: seq<string>, kwargs: Kwargs): InitAsWritten {
    InitAsWritten(InitialFields(declared, kwargs), map[])
  }

  /** Every entry map of a record is a genuine dict: no key twice. */
  ghost predicate EntryMapsDistinct(m: map<string, Dict<string>>) {
    forall name :: name in m ==> DistinctKeys(m[name])
  }

  /** The entry maps a new record starts with are genuine dicts. */
  lemma {:induction false} InitialEntryMapsDistinct(multi: seq<string>, kwargs: Kwargs)
    ensures EntryMapsDistinct(InitialMultiValueFields(multi, kwargs))
  {
    if |multi| > 0 {
      var m := InitialMultiValueFields(multi[..|multi| - 1], kwargs);
      InitialEntryMapsDistinct(multi[..|multi| - 1], kwargs);
      var f := multi[|multi| - 1];
      match Get(kwargs, f)
      case Some(v) =>
        if f in m && m[f] != [] {
          PutKeepsDistinct(m[f], v, v);
        }
      case None =>
    }
  }

  class Record {
    var fields: map<string, string>
    var multiValueFields: map<string, Dict<string>>

    ghost predicate Valid()
      reads this
    {
      EntryMapsDistinct(multiValueFields)
    }

    /** `Record.__init__` once `ValidateKwargs` has passed: the declared fields
        are stored, and every multi-valued field passed becomes an entry. */
    constructor (schema: Schema, kwargs: Kwargs)
      requires ValidateKwargs(schema, kwargs).Pass?
      ensures Valid()
      ensures fields == InitialFields(schema.fields, kwargs)
      ensures multiValueFields == InitialMultiValueFields(schema.multiValueFields, kwargs)
    {
      var multi := schema.multiValueFields;
      var entries: map<string, Dict<string>> := map[];
      var i := 0;
      while i < |multi|
        invariant 0 <= i <= |multi|
        invariant entries == InitialMultiValueFields(multi[..i], kwargs)
      {
        assert multi[..i + 1][..i] == multi[..i];
        var f := multi[i];
        match Get(kwargs, f) {
          case Some(v) =>
            if f !in entries || entries[f] == [] {
              entries := entries[f := [(v, v)]];
            } else {
              entries := entries[f := Put(entries[f], v, v)];
            }
          case None =>
        }
        i := i + 1;
      }
      assert multi[..i] == multi;
      var declared := schema.fields;
      var scalars: map<string, string> := map[];
      var j := 0;
      while j < |declared|
        invariant 0 <= j <= |declared|
        invariant scalars == InitialFields(declared[..j], kwargs)
      {
        assert declared[..j + 1][..j] == declared[..j];
        var f := declared[j];
        match Get(kwargs, f) {
          case Some(v) => scalars := scalars[f := v];
          case None =>
        }
        j := j + 1;
      }
      assert declared[..j] == declared;
      fields := scalars;
      multiValueFields := entries;
      InitialEntryMapsDistinct(multi, kwargs);
    }

    /** `_init_multi_value_field`. */
    method InitMultiValueField(name: string)
      requires Valid()
      modifies this
      ensures Valid()
      ensures fields == old(fields)
      ensures multiValueFields == WithFieldInitialised(old(multiValueFields), name)
    {
      if name !in multiValueFields {
        multiValueFields := multiValueFields[name := []];
      }
    }

    /** `add_multi_value_field_entry`. */
    method AddMultiValueFieldEntry(name: string, value: string)
      requires Valid()
      modifies this
      ensures Valid()
      ensures fields == old(fields)
      ensures multiValueFields == WithEntryAdded(old(multiValueFields), name, value)
    {
      InitMultiValueField(name);
      PutKeepsDistinct(multiValueFields[name], value, value);
      multiValueFields := multiValueFields[name := Put(multiValueFields[name], value, value)];
    }

    /** `update_multi_value_field_entry`: fails, after initialising the field,
        when `oldValue` is not an entry. */
    method UpdateMultiValueFieldEntry(name: string, oldValue: string, newValue: string) returns (res: Outcome<string>)
      requires Valid()
      modifies this
      ensures Valid()
      ensures fields == old(fields)
      ensures res.Fail? <==> !HasKey(EntriesOf(old(multiValueFields), name), oldValue)
      ensures res.Fail? ==>
        res.error == "Old value " + oldValue + " not found in " + name
        && multiValueFields == WithFieldInitialised(old(multiValueFields), name)
      ensures res.Pass? ==> multiValueFields == WithEntryUpdated(old(multiValueFields), name, oldValue, newValue)
    {
      InitMultiValueField(name);
      if !HasKey(multiValueFields[name], oldValue) {
        return Fail("Old value " + oldValue + " not found in " + name);
      }
      PutKeepsDistinct(multiValueFields[name], oldValue, newValue);
      multiValueFields := multiValueFields[name := Put(multiValueFields[name], oldValue, newValue)];
      res := Pass;
    }

    /** `delete_multi_value_field_entry`: fails, after initialising the field,
        when `value` is not an entry. */
    method DeleteMultiValueFieldEntry(name: string, value: string) returns (res: Outcome<string>)
      requires Valid()
      modifies this
      ensures Valid()
      ensures fields == old(fields)
      ensures res.Fail? <==> !HasKey(EntriesOf(old(multiValueFields), name), value)
      ensures res.Fail? ==>
        res.error == value + " not found in " + name
        && multiValueFields == WithFieldInitialised(old(multiValueFields), name)
      ensures res.Pass? ==> multiValueFields == WithEntryDeleted(old(multiValueFields), name, value)
    {
      InitMultiValueField(name);
      if !HasKey(multiValueFields[name], value) {
        return Fail(value + " not found in " + name);
      }
      KeysPop(multiValueFields[name], value);
      multiValueFields := multiValueFields[name := Pop(multiValueFields[name], value)];
      res := Pass;
    }

    /** `get_multi_value_field_entries`: a copy of the field's entries. */
    method GetMultiValueFieldEntries(name: string) returns (entries: Dict<string>)
      requires Valid()
      modifies this
      ensures Valid()
      ensures fields == old(fields)
      ensures entries == EntriesOf(old(multiValueFields), name)
      ensures multiValueFields == WithFieldInitialised(old(multiValueFields), name)
    {
      InitMultiValueField(name);
      entries := multiValueFields[name];
    }
  }

  // ----- properties of the record operations -----

  /** A new record holds exactly the declared fields that were passed, with
      the values passed. */
  lemma {:induction false} InitialFieldsExact(declared: seq<string>, kwargs: Kwargs, f: string)
    ensures f in InitialFields(declared, kwargs) <==> f in declared && HasKey(kwargs, f)
    ensures f in InitialFields(declared, kwargs) ==> Get(kwargs, f) == Some(InitialFields(declared, kwargs)[f])
  {
    GetSomeIffHasKey(kwargs, f);
    if |declared| > 0 {
      var front := declared[..|declared| - 1];
      InitialFieldsExact(front, kwargs, f);
      assert declared == front + [declared[|declared| - 1]];
    }
  }

  /** After adding an entry, the value is an entry mapped to itself, and the
      other fields' entries are untouched. */
  lemma AddedEntryMapsToItself(m: map<string, Dict<string>>, name: string, value: string)
    ensures Get(EntriesOf(WithEntryAdded(m, name, value), name), value) == Some(value)
    ensures forall other :: other != name ==> EntriesOf(WithEntryAdded(m, name, value), other) == EntriesOf(m, other)
  {
    GetPut(EntriesOf(m, name), value, value, value);
  }

  lemma {:induction false} PutSameTwice(d: Dict<string>, k: string, v: string)
    ensures Put(Put(d, k, v), k, v) == Put(d, k, v)
  {
    if |d| > 0 && d[0].0 != k {
      PutSameTwice(d[1..], k, v);
    }
  }

  /** Adding the same entry twice is the same as adding it once. */
  lemma AddEntryIdempotent(m: map<string, Dict<string>>, name: string, value: string)
    ensures WithEntryAdded(WithEntryAdded(m, name, value), name, value) == WithEntryAdded(m, name, value)
  {
    PutSameTwice(EntriesOf(m, name), value, value);
  }

  /** Updating a present entry keeps the entry keys as they were and puts the
      new value under the old key. */
  lemma UpdatedEntryKeepsKeys(m: map<string, Dict<string>>, name: string, oldValue: string, newValue: string)
    requires HasKey(EntriesOf(m, name), oldValue)
    ensures Keys(EntriesOf(WithEntryUpdated(m, name, oldValue, newValue), name)) == Keys(EntriesOf(m, name))
    ensures Get(EntriesOf(WithEntryUpdated(m, name, oldValue, newValue), name), oldValue) == Some(newValue)
  {
    KeysPut(EntriesOf(m, name), oldValue, newValue);
    GetPut(EntriesOf(m, name), oldValue, newValue, oldValue);
  }

  /** Deleting an entry removes exactly that key and keeps every other entry. */
  lemma DeletedEntryRemovesExactly(m: map<string, Dict<string>>, name: string, value: string)
    requires EntryMapsDistinct(m)
    ensures forall k :: HasKey(EntriesOf(WithEntryDeleted(m, name, value), name), k)
                    <==> HasKey(EntriesOf(m, name), k) && k != value
    ensures forall k :: k != value ==>
      Get(EntriesOf(WithEntryDeleted(m, name, value), name), k) == Get(EntriesOf(m, name), k)
  {
    KeysPop(EntriesOf(m, name), value);
    forall k | k != value
      ensures Get(EntriesOf(WithEntryDeleted(m, name, value), name), k) == Get(EntriesOf(m, name), k)
    {
      GetPop(EntriesOf(m, name), value, k);
    }
  }

  /** Initialising a field never clears entries it already has. */
  lemma InitialiseKeepsEntries(m: map<string, Dict<string>>, name: string)
    ensures name in WithFieldInitialised(m, name)
    ensures WithFieldInitialised(m, name)[name] == EntriesOf(m, name)
    ensures forall other :: other != name ==> EntriesOf(WithFieldInitialised(m, name), other) == EntriesOf(m, other)
  {
  }
}
