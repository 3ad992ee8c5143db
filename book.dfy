/** `Book`: a dict of records keyed by each record's key, with the four
    operations the bot exposes on it: add, get, update and delete. Every
    operation answers with a result code, the records concerned and the
    conditions it looked for. */
module Books {
  import opened Wrappers
  import opened Dicts
  import opened Records
  import opened BookParsing
  import opened BookMatching
  import opened BookUpdates

  const ReturnResultNew := "added"
  const ReturnResultFound := "found"
  const ReturnResultNotFound := "not-found"
  const ReturnResultDuplicate := "duplicate"
  const ReturnResultUpdated := "updated"
  const ReturnResultUpdateCausesDuplicate := "update-causes-duplicate"
  const ReturnResultNotUpdated := "not-updated"
  const ReturnResultDeleted := "deleted"
  const ReturnResultNotDeleted := "not-deleted"

  /** The third element of an answer: the conditions looked for, or
      `{"query": conditions}` when the answer comes from the full-text search. */
  datatype Echo = Conds(conditions: Conditions) | Query(query: Conditions)

  /** The `(code, records, conditions)` triple every operation returns. */
  datatype Reply = Reply(code: string, records: seq<Record>, echo: Echo)

  /** `self.data.values()`. */
  function Values(d: Dict<Record>): (r: seq<Record>)
    ensures |r| == |d|
    ensures forall i :: 0 <= i < |d| ==> r[i] == d[i].1
  {
    seq(|d|, i requires 0 <= i < |d| => d[i].1)
  }

  /** The records of `rs` satisfying every condition, in order. */
  function MatchingRecords(multi: seq<string>, rs: seq<Record>, conditions: Conditions): seq<Record>
    reads rs
  {
    if |rs| == 0 then []
    else
      var r := rs[|rs| - 1];
      MatchingRecords(multi, rs[..|rs| - 1], conditions)
        + (if Matches(multi, r.fields, r.multiValueFields, conditions) then [r] else [])
  }

  /** The list comprehension of `get_records`: the records, in order, that
      satisfy the conditions. */
  method FilterMatching(multi: seq<string>, rs: seq<Record>, conditions: Conditions) returns (found: seq<Record>)
    ensures found == MatchingRecords(multi, rs, conditions)
  {
    found := [];
    var i := 0;
    while i < |rs|
      invariant 0 <= i <= |rs|
      invariant found == MatchingRecords(multi, rs[..i], conditions)
    {
      assert rs[..i + 1][..i] == rs[..i];
      var ok := MatchesConditions(multi, rs[i].fields, rs[i].multiValueFields, conditions);
      if ok {
        found := found + [rs[i]];
      }
      i := i + 1;
    }
    assert rs[..i] == rs;
  }

  /** The entries to look for in multi-valued fields, as conditions. */
  function AsConditions(changes: EntryChanges): (r: Conditions)
    ensures |r| == |changes|
    ensures forall i :: 0 <= i < |changes| ==> r[i] == (changes[i].0, Entries(changes[i].1))
  {
    seq(|changes|, i requires 0 <= i < |changes| => (changes[i].0, Entries(changes[i].1)))
  }

  /** The conditions `get_records` looks for: the plain-field conditions,
      overridden by the multi-valued ones (`{**fields, **multi}`). */
  function LookupConditions(schema: Schema, needToCheckSuffix: bool, forUpdate: bool, kwargs: Kwargs): Conditions {
    PutAll(FieldConditions(schema.requiredFields, needToCheckSuffix, kwargs),
           AsConditions(MultiValueChanges(schema.multiValueFields, needToCheckSuffix, forUpdate, false, kwargs)))
  }

  /** `search_records(conditions)`; `searched` is what the full-text index
      answers for those conditions, mapped back to records (`None` when it
      finds nothing). */
  function SearchReply(conditions: Conditions, searched: Option<seq<Record>>): Reply {
    if |conditions| == 0 then Reply(ReturnResultNotFound, [], Conds([]))
    else match searched
      case None => Reply(ReturnResultNotFound, [], Query(conditions))
      case Some(rs) => Reply(ReturnResultFound, rs, Query(conditions))
  }

  /** `record.fields[field] = value` for every field to update. */
  method UpdateFields(r: Record, updates: Dict<string>)
    modifies r
    ensures r.fields == ApplyFieldUpdates(old(r.fields), updates)
    ensures r.multiValueFields == old(r.multiValueFields)
  {
    var i := 0;
    while i < |updates|
      invariant 0 <= i <= |updates|
      invariant r.fields == ApplyFieldUpdates(old(r.fields), updates[..i])
      invariant r.multiValueFields == old(r.multiValueFields)
    {
      assert updates[..i + 1][..i] == updates[..i];
      r.fields := r.fields[updates[i].0 := updates[i].1];
      i := i + 1;
    }
    assert updates[..i] == updates;
  }

  /** The replacements asked for one multi-valued field: pop the entry to
      replace, then store the new one mapped to itself. */
  method ReplaceFieldEntries(r: Record, name: string, pairs: Dict<string>)
    modifies r
    ensures r.fields == old(r.fields)
    ensures r.multiValueFields == ReplaceEntries(old(r.multiValueFields), name, pairs)
  {
    var k := 0;
    while k < |pairs|
      invariant 0 <= k <= |pairs|
      invariant r.fields == old(r.fields)
      invariant r.multiValueFields == ReplaceEntries(old(r.multiValueFields), name, pairs[..k])
    {
      var toReplace, newValue := pairs[k].0, pairs[k].1;
      if toReplace == "" {
        toReplace := newValue;
      }
      r.multiValueFields := WithEntryDeleted(r.multiValueFields, name, toReplace);
      r.multiValueFields := r.multiValueFields[name := Put(r.multiValueFields[name], newValue, newValue)];
      assert pairs[..k + 1][..k] == pairs[..k];
      k := k + 1;
    }
    assert pairs[..k] == pairs;
  }

  /** The deletions asked for one multi-valued field. */
  method DeleteFieldEntries(r: Record, name: string, values: Dict<string>)
    modifies r
    ensures r.fields == old(r.fields)
    ensures r.multiValueFields == DeleteEntries(old(r.multiValueFields), name, values)
  {
    var k := 0;
    while k < |values|
      invariant 0 <= k <= |values|
      invariant r.fields == old(r.fields)
      invariant r.multiValueFields == DeleteEntries(old(r.multiValueFields), name, values[..k])
    {
      r.multiValueFields := WithEntryDeleted(r.multiValueFields, name, values[k].0);
      assert values[..k + 1][..k] == values[..k];
      k := k + 1;
    }
    assert values[..k] == values;
  }

  /** The loop body of `update_records` for one record: overwrite the fields,
      replace the entries, then delete the entries asked for. */
  method UpdateRecord(r: Record, updates: Dict<string>, changes: EntryChanges, deletes: EntryChanges)
    requires r.Valid()
    modifies r
    ensures r.Valid()
    ensures r.fields == ApplyFieldUpdates(old(r.fields), updates)
    ensures r.multiValueFields == UpdatedEntries(old(r.multiValueFields), changes, deletes)
  {
    UpdateFields(r, updates);
    var c := 0;
    while c < |changes|
      invariant 0 <= c <= |changes|
      invariant r.fields == ApplyFieldUpdates(old(r.fields), updates)
      invariant r.multiValueFields == ApplyMultiUpdates(old(r.multiValueFields), changes[..c])
    {
      ReplaceFieldEntries(r, changes[c].0, changes[c].1);
      assert changes[..c + 1][..c] == changes[..c];
      c := c + 1;
    }
    assert changes[..c] == changes;
    ghost var updated := r.multiValueFields;
    var d := 0;
    while d < |deletes|
      invariant 0 <= d <= |deletes|
      invariant r.fields == ApplyFieldUpdates(old(r.fields), updates)
      invariant r.multiValueFields == ApplyMultiDeletes(updated, deletes[..d])
    {
      DeleteFieldEntries(r, deletes[d].0, deletes[d].1);
      assert deletes[..d + 1][..d] == deletes[..d];
      d := d + 1;
    }
    assert deletes[..d] == deletes;
    UpdatedEntriesKeepDistinct(old(r.multiValueFields), changes, deletes);
  }

  /** Among the stored records, exactly those found got the field updates
      and the entry changes; every other one is as it was. */
  twostate predicate RecordsUpdated(stored: seq<Record>, found: seq<Record>,
                                    new updates: Dict<string>, new changes: EntryChanges, new deletes: EntryChanges)
    reads stored
  {
    forall r :: r in stored ==>
      if r in found then
        && r.fields == ApplyFieldUpdates(old(r.fields), updates)
        && r.multiValueFields == UpdatedEntries(old(r.multiValueFields), changes, deletes)
      else r.fields == old(r.fields) && r.multiValueFields == old(r.multiValueFields)
  }

  /** `update_records`' loop over the records found, each updated once. */
  method UpdateAll(stored: seq<Record>, found: seq<Record>, updates: Dict<string>, changes: EntryChanges, deletes: EntryChanges)
    requires forall i, j :: 0 <= i < j < |found| ==> found[i] != found[j]
    requires forall r :: r in found ==> r in stored
    requires forall r :: r in stored ==> r.Valid()
    modifies set r | r in found
    ensures forall r :: r in stored ==> r.Valid()
    ensures RecordsUpdated(stored, found, updates, changes, deletes)
  {
    var i := 0;
    while i < |found|
      invariant 0 <= i <= |found|
      invariant forall r :: r in stored ==> r.Valid()
      invariant forall r :: r in found[..i] ==>
        && r.fields == ApplyFieldUpdates(old(r.fields), updates)
        && r.multiValueFields == UpdatedEntries(old(r.multiValueFields), changes, deletes)
      invariant forall j :: i <= j < |found| ==>
        found[j].fields == old(found[j].fields) && found[j].multiValueFields == old(found[j].multiValueFields)
    {
      UpdateRecord(found[i], updates, changes, deletes);
      assert found[..i + 1] == found[..i] + [found[i]];
      i := i + 1;
    }
    assert found[..i] == found;
  }

  class Book {
    /** `get_book_name`. */
    const bookName: string
    /** The field lists of `get_record_class`. */
    const schema: Schema
    /** `record_as_option`: the key a record is stored under, computed from
        its fields. */
    const keyOf: map<string, string> -> string
    var data: Dict<Record>

    /** A genuine dict of distinct, well-formed records. */
    ghost predicate Valid()
      reads this, Values(data)
    {
      && DistinctKeys(data)
      && DistinctValues(data)
      && forall r :: r in Values(data) ==> r.Valid()
    }

    /** An empty book. */
    constructor (bookName: string, schema: Schema, keyOf: map<string, string> -> string)
      ensures Valid()
      ensures this.bookName == bookName && this.schema == schema && this.keyOf == keyOf
      ensures data == []
    {
      this.bookName := bookName;
      this.schema := schema;
      this.keyOf := keyOf;
      data := [];
    }

    /** The answer of `get_records` for the present contents. */
    function Lookup(needToCheckSuffix: bool, forUpdate: bool, kwargs: Kwargs, searched: Option<seq<Record>>): Reply
      reads this, Values(data)
    {
      var conditions := LookupConditions(schema, needToCheckSuffix, forUpdate, kwargs);
      var found := MatchingRecords(schema.multiValueFields, Values(data), conditions);
      if |found| > 0 then Reply(ReturnResultFound, found, Conds(conditions))
      else if forUpdate then Reply(ReturnResultNotFound, [], Conds(conditions))
      else SearchReply(conditions, searched)
    }

    /** The keys the records are stored under, recomputed from their fields. */
    function StoredKeys(rs: seq<Record>): (r: seq<string>)
      reads rs
      ensures |r| == |rs|
      ensures forall i :: 0 <= i < |rs| ==> r[i] == keyOf(rs[i].fields)
    {
      seq(|rs|, i requires 0 <= i < |rs| reads rs => keyOf(rs[i].fields))
    }

    /** `get_records`: every record satisfying the conditions; when there is
        none, an update reports `not-found` and any other caller falls back
        to the full-text search. */
    method GetRecords(needToCheckSuffix: bool, forUpdate: bool, kwargs: Kwargs, searched: Option<seq<Record>>)
      returns (reply: Reply)
      ensures reply == Lookup(needToCheckSuffix, forUpdate, kwargs, searched)
    {
      var fieldConditions := ParseFieldsConditions(schema.requiredFields, needToCheckSuffix, kwargs);
      var multiConditions := ParseMultiValueFields(schema.multiValueFields, needToCheckSuffix, forUpdate, false, kwargs);
      var conditions := PutAll(fieldConditions, AsConditions(multiConditions));
      var found := FilterMatching(schema.multiValueFields, Values(data), conditions);
      if |found| == 0 {
        if !forUpdate {
          return SearchReply(conditions, searched);
        }
        return Reply(ReturnResultNotFound, [], Conds(conditions));
      }
      return Reply(ReturnResultFound, found, Conds(conditions));
    }

    /** `add_record`: a record matching the required fields given is reported
        as a duplicate; otherwise the arguments are validated and the new
        record is stored under its key, replacing any record stored there. */
    method AddRecord(kwargs: Kwargs) returns (res: Result<Reply, string>)
      requires Valid()
      modifies this
      ensures Valid()
      ensures var lookup := old(Lookup(false, true, kwargs, None));
        lookup.code == ReturnResultFound ==>
          res == Success(Reply(ReturnResultDuplicate, lookup.records, lookup.echo)) && data == old(data)
      ensures var lookup := old(Lookup(false, true, kwargs, None));
        lookup.code != ReturnResultFound && ValidateKwargs(schema, kwargs).Fail? ==>
          res == Failure(ValidateKwargs(schema, kwargs).error) && data == old(data)
      ensures var lookup := old(Lookup(false, true, kwargs, None));
        lookup.code != ReturnResultFound && ValidateKwargs(schema, kwargs).Pass? ==>
          && res.Success? && res.value.code == ReturnResultNew && res.value.echo == Conds([])
          && |res.value.records| == 1
          && var added := res.value.records[0];
          && fresh(added)
          && added.fields == InitialFields(schema.fields, kwargs)
          && added.multiValueFields == InitialMultiValueFields(schema.multiValueFields, kwargs)
          && data == Put(old(data), keyOf(added.fields), added)
    {
      var found := GetRecords(false, true, kwargs, None);
      if found.code == ReturnResultFound {
        return Success(Reply(ReturnResultDuplicate, found.records, found.echo));
      }
      var valid := ValidateKwargs(schema, kwargs);
      if valid.Fail? {
        return Failure(valid.error);
      }
      var added := new Record(schema, kwargs);
      forall p | p in data ensures p.1 != added {
      }
      PutRecordKeepsValid(data, keyOf(added.fields), added);
      data := Put(data, keyOf(added.fields), added);
      return Success(Reply(ReturnResultNew, [added], Conds([])));
    }

    /** `update_records`: every record the conditions select is updated in
        place and the answer lists them; the book's keys are not touched. */
    method UpdateRecords(emulation: bool, needToCheckSuffix: bool, kwargs: Kwargs) returns (reply: Reply)
      requires Valid()
      modifies Values(data)
      ensures Valid()
      ensures data == old(data)
      ensures var lookup := old(Lookup(needToCheckSuffix, true, kwargs, None));
        if lookup.code == ReturnResultNotFound then reply == Reply(ReturnResultNotUpdated, Values(data), lookup.echo)
        else reply == Reply(ReturnResultUpdated, lookup.records, lookup.echo)
      ensures reply.code == ReturnResultUpdated ==>
        RecordsUpdated(Values(data), reply.records, FieldsToUpdate(schema.multiValueFields, emulation, kwargs),
                       MultiValueChanges(schema.multiValueFields, false, false, emulation, kwargs), EntriesToDelete(kwargs))
      ensures reply.code != ReturnResultUpdated ==> unchanged(Values(data))
    {
      var lookup := GetRecords(needToCheckSuffix, true, kwargs, None);
      assert lookup == old(Lookup(needToCheckSuffix, true, kwargs, None));
      if lookup.code == ReturnResultNotFound {
        return Reply(ReturnResultNotUpdated, Values(data), lookup.echo);
      }
      var found := lookup.records;
      UpdateLookupRecords(this, needToCheckSuffix, kwargs, found);
      var updates := ParseFieldsToUpdate(schema.multiValueFields, emulation, kwargs);
      var changes := ParseMultiValueFields(schema.multiValueFields, false, false, emulation, kwargs);
      var deletes := ParseEntriesToDelete(kwargs);
      UpdateAll(Values(data), found, updates, changes, deletes);
      return Reply(ReturnResultUpdated, found, lookup.echo);
    }

    /** `del self.data[key]` for every key present among `keys`. */
    method PopKeys(keys: seq<string>)
      requires Valid()
      modifies this
      ensures Valid()
      ensures data == PopAll(old(data), keys)
    {
      var i := 0;
      while i < |keys|
        invariant 0 <= i <= |keys|
        invariant data == PopAll(old(data), keys[..i])
      {
        assert keys[..i + 1][..i] == keys[..i];
        data := Pop(data, keys[i]);
        i := i + 1;
      }
      assert keys[..i] == keys;
      PopAllKeepsRecordsValid(old(data), keys);
    }

    /** `delete_records`: the records `get_records` finds (falling back to
        the full-text search) are removed by their present key. */
    method DeleteRecords(kwargs: Kwargs, searched: Option<seq<Record>>) returns (reply: Reply)
      requires Valid()
      modifies this
      ensures Valid()
      ensures var lookup := old(Lookup(true, false, kwargs, searched));
        if lookup.code == ReturnResultNotFound then
          reply == Reply(ReturnResultNotDeleted, Values(old(data)), lookup.echo) && data == old(data)
        else
          reply == Reply(ReturnResultDeleted, lookup.records, Conds([]))
          && data == PopAll(old(data), StoredKeys(lookup.records))
    {
      var lookup := GetRecords(true, false, kwargs, searched);
      if lookup.code == ReturnResultNotFound {
        return Reply(ReturnResultNotDeleted, Values(data), lookup.echo);
      }
      var keys := StoredKeys(lookup.records);
      PopKeys(keys);
      return Reply(ReturnResultDeleted, lookup.records, Conds([]));
    }
  }

  // ----- properties -----

  /** Storing a record that is not stored yet keeps the dict genuine and
      every stored record valid. */
  lemma PutRecordKeepsValid(d: Dict<Record>, k: string, added: Record)
    requires DistinctKeys(d) && DistinctValues(d)
    requires forall r :: r in Values(d) ==> r.Valid()
    requires added.Valid() && forall p :: p in d ==> p.1 != added
    ensures DistinctKeys(Put(d, k, added)) && DistinctValues(Put(d, k, added))
    ensures forall r :: r in Values(Put(d, k, added)) ==> r.Valid()
  {
    PutKeepsDistinct(d, k, added);
    PutNewValueKeepsDistinctValues(d, k, added);
    PutPairs(d, k, added);
    var after := Put(d, k, added);
    forall r | r in Values(after) ensures r.Valid() {
      var i :| 0 <= i < |after| && Values(after)[i] == r;
      assert after[i] in after;
      if r != added {
        var j :| 0 <= j < |d| && d[j] == after[i];
        assert Values(d)[j] == r;
      }
    }
  }

  /** The records found are exactly those of `rs` that satisfy every condition. */
  lemma {:induction false} MatchingRecordsMembers(multi: seq<string>, rs: seq<Record>, conditions: Conditions, r: Record)
    ensures r in MatchingRecords(multi, rs, conditions) <==>
      r in rs && Matches(multi, r.fields, r.multiValueFields, conditions)
  {
    if |rs| > 0 {
      MatchingRecordsMembers(multi, rs[..|rs| - 1], conditions, r);
      assert rs == rs[..|rs| - 1] + [rs[|rs| - 1]];
    }
  }

  /** Each record found is found once when `rs` holds each record once. */
  lemma {:induction false} MatchingRecordsDistinct(multi: seq<string>, rs: seq<Record>, conditions: Conditions)
    requires forall i, j :: 0 <= i < j < |rs| ==> rs[i] != rs[j]
    ensures forall i, j :: 0 <= i < j < |MatchingRecords(multi, rs, conditions)| ==>
      MatchingRecords(multi, rs, conditions)[i] != MatchingRecords(multi, rs, conditions)[j]
  {
    if |rs| > 0 {
      var front := rs[..|rs| - 1];
      var last := rs[|rs| - 1];
      assert forall i, j :: 0 <= i < j < |front| ==> front[i] != front[j] by {
        forall i, j | 0 <= i < j < |front| ensures front[i] != front[j] {
          assert front[i] == rs[i] && front[j] == rs[j];
        }
      }
      MatchingRecordsDistinct(multi, front, conditions);
      var found := MatchingRecords(multi, rs, conditions);
      var frontFound := MatchingRecords(multi, front, conditions);
      assert found == frontFound + (if Matches(multi, last.fields, last.multiValueFields, conditions) then [last] else []);
      forall i, j | 0 <= i < j < |found| ensures found[i] != found[j] {
        if j < |frontFound| {
          assert found[i] == frontFound[i] && found[j] == frontFound[j];
          assert frontFound[i] != frontFound[j];
        } else {
          assert found[j] == last;
          assert found[i] == frontFound[i];
          MatchingRecordsMembers(multi, front, conditions, frontFound[i]);
          assert frontFound[i] in front;
          assert last !in front by {
            forall k | 0 <= k < |front| ensures front[k] != last {
              assert front[k] == rs[k];
            }
          }
          assert found[i] != last;
        }
      }
    }
  }

  /** The records an update selects are records of the book, each once. */
  lemma UpdateLookupRecords(b: Book, needToCheckSuffix: bool, kwargs: Kwargs, found: seq<Record>)
    requires DistinctValues(b.data)
    requires found == b.Lookup(needToCheckSuffix, true, kwargs, None).records
    ensures forall r :: r in found ==> r in Values(b.data)
    ensures forall i, j :: 0 <= i < j < |found| ==> found[i] != found[j]
  {
    var conditions := LookupConditions(b.schema, needToCheckSuffix, true, kwargs);
    DistinctValuesOf(b.data);
    MatchingRecordsDistinct(b.schema.multiValueFields, Values(b.data), conditions);
    forall r | r in MatchingRecords(b.schema.multiValueFields, Values(b.data), conditions) ensures r in Values(b.data) {
      MatchingRecordsMembers(b.schema.multiValueFields, Values(b.data), conditions, r);
    }
  }

  lemma DistinctValuesOf(d: Dict<Record>)
    requires DistinctValues(d)
    ensures forall i, j :: 0 <= i < j < |Values(d)| ==> Values(d)[i] != Values(d)[j]
  {
  }

  /** With no condition every record matches. */
  lemma {:induction false} NoConditionsMatchAll(multi: seq<string>, rs: seq<Record>)
    ensures MatchingRecords(multi, rs, []) == rs
  {
    if |rs| > 0 {
      NoConditionsMatchAll(multi, rs[..|rs| - 1]);
      assert rs == rs[..|rs| - 1] + [rs[|rs| - 1]];
    }
  }

  /** An update looks records up by plain-field conditions only: the
      entries of multi-valued fields play no part in the selection. */
  lemma UpdateLookupIgnoresEntries(schema: Schema, needToCheckSuffix: bool, kwargs: Kwargs)
    ensures LookupConditions(schema, needToCheckSuffix, true, kwargs)
      == FieldConditions(schema.requiredFields, needToCheckSuffix, kwargs)
  {
    assert AsConditions([]) == [];
  }

  /** A lookup for an update either finds records or reports `not-found`
      with no record; it never consults the full-text search. */
  lemma UpdateLookupOutcome(b: Book, needToCheckSuffix: bool, kwargs: Kwargs, searched: Option<seq<Record>>)
    ensures var reply := b.Lookup(needToCheckSuffix, true, kwargs, searched);
      && reply == b.Lookup(needToCheckSuffix, true, kwargs, None)
      && (reply.code == ReturnResultFound <==> |reply.records| > 0)
      && (reply.code == ReturnResultFound || reply.code == ReturnResultNotFound)
  {
  }

  /** `add_record` given neither a required field nor a non-empty
      `search_by…` argument looks for nothing, so on a book that is not
      empty every record counts as a duplicate. */
  lemma AddWithoutKeyFieldsFindsEverything(b: Book, kwargs: Kwargs)
    requires forall i :: 0 <= i < |kwargs| ==> !SelectsCondition(b.schema.requiredFields, false, kwargs[i])
    ensures b.Lookup(false, true, kwargs, None).records == Values(b.data)
    ensures b.Lookup(false, true, kwargs, None).code == ReturnResultFound <==> |b.data| > 0
  {
    NoSelectedConditions(b.schema.requiredFields, false, kwargs);
    UpdateLookupIgnoresEntries(b.schema, false, kwargs);
    NoConditionsMatchAll(b.schema.multiValueFields, Values(b.data));
  }

  lemma {:induction false} NoSelectedConditions(required: seq<string>, needToCheckSuffix: bool, kwargs: Kwargs)
    requires forall i :: 0 <= i < |kwargs| ==> !SelectsCondition(required, needToCheckSuffix, kwargs[i])
    ensures FieldConditions(required, needToCheckSuffix, kwargs) == []
  {
    if |kwargs| > 0 {
      NoSelectedConditions(required, needToCheckSuffix, kwargs[..|kwargs| - 1]);
    }
  }

  /** The full-text fallback: no conditions means no search at all; otherwise
      the answer is found exactly when the index answers. */
  lemma SearchFallback(b: Book, kwargs: Kwargs, searched: Option<seq<Record>>)
    requires |MatchingRecords(b.schema.multiValueFields, Values(b.data), LookupConditions(b.schema, true, false, kwargs))| == 0
    ensures var reply := b.Lookup(true, false, kwargs, searched);
      && (reply.code == ReturnResultFound <==> |LookupConditions(b.schema, true, false, kwargs)| > 0 && searched.Some?)
      && (reply.code == ReturnResultFound ==> reply.records == searched.value)
  {
  }

  /** Popping keys keeps a book's dict valid: no key or record twice, every
      record well formed. */
  lemma PopAllKeepsRecordsValid(d: Dict<Record>, keys: seq<string>)
    requires DistinctKeys(d) && DistinctValues(d)
    requires forall r :: r in Values(d) ==> r.Valid()
    ensures DistinctKeys(PopAll(d, keys)) && DistinctValues(PopAll(d, keys))
    ensures forall r :: r in Values(PopAll(d, keys)) ==> r.Valid()
  {
    PopAllKeepsDistinctValues(d, keys);
    PopAllEffect(d, keys, "");
    var after := PopAll(d, keys);
    forall r | r in Values(after) ensures r.Valid() {
      var i :| 0 <= i < |after| && Values(after)[i] == r;
      assert after[i] in after;
      var j :| 0 <= j < |d| && d[j] == after[i];
      assert Values(d)[j] == r;
    }
  }

  /** After a deletion no record is stored under the key of a deleted record,
      and every other key keeps its record. */
  lemma DeletedKeysGone(d: Dict<Record>, keys: seq<string>, k: string)
    requires DistinctKeys(d)
    ensures k in keys ==> !HasKey(PopAll(d, keys), k)
    ensures k !in keys ==> Get(PopAll(d, keys), k) == Get(d, k)
  {
    PopAllEffect(d, keys, k);
    GetSomeIffHasKey(PopAll(d, keys), k);
  }
}
